/** A small model of `os.path` on the two hosts the scripts meet: POSIX
    (separator `/`) and Windows (separators `\` and `/`, output with `\`,
    and a two-character drive such as `D:`). Paths are normalised as a drive
    plus a list of segments. */
module Paths {
  import opened Common
  import opened Text

  datatype Host = Posix | Windows

  /** An absolute, normalised path: a drive (empty on POSIX) and segments. */
  datatype AbsPath = AbsPath(drive: string, segs: seq<string>)

  /** The separator `os.path` writes. */
  function Sep(h: Host): char
  {
    if h == Windows then '\\' else '/'
  }

  /** The separators `os.path` reads. */
  predicate IsSep(h: Host, c: char)
  {
    c == '/' || (h == Windows && c == '\\')
  }

  /** `os.path.splitdrive`: `X:` on Windows, nothing on POSIX. */
  function SplitDrive(h: Host, p: string): (string, string)
  {
    if h == Windows && |p| >= 2 && p[1] == ':' then (p[..2], p[2..]) else ("", p)
  }

  predicate IsRooted(h: Host, rest: string)
  {
    |rest| > 0 && IsSep(h, rest[0])
  }

  /** A text holding no separator. */
  predicate NoSep(h: Host, s: string)
  {
    forall i :: 0 <= i < |s| ==> !IsSep(h, s[i])
  }

  /** The non-empty pieces between separators. */
  function Segments(h: Host, s: string): (r: seq<string>)
    ensures forall k :: 0 <= k < |r| ==> NoSep(h, r[k]) && r[k] != ""
  {
    var isSep := c => IsSep(h, c);
    var pieces := SplitWhere(s, isSep);
    var r := NonEmpty(pieces);
    assert forall k :: 0 <= k < |r| ==> NoSep(h, r[k]) by {
      forall k | 0 <= k < |r| ensures NoSep(h, r[k]) {
        var j :| 0 <= j < |pieces| && pieces[j] == r[k];
        assert forall i :: 0 <= i < |pieces[j]| ==> !isSep(pieces[j][i]);
      }
    }
    r
  }

  function NonEmpty(ps: seq<string>): (r: seq<string>)
    ensures forall k :: 0 <= k < |r| ==> r[k] != "" && r[k] in ps
  {
    if ps == [] then []
    else if ps[0] == "" then NonEmpty(ps[1..])
    else [ps[0]] + NonEmpty(ps[1..])
  }

  /** A segment a normalised path can hold. */
  predicate IsName(h: Host, s: string)
  {
    s != "" && s != "." && s != ".." && NoSep(h, s)
  }

  /** What `os.getcwd()` returns: a path made of proper names. */
  predicate ValidAbs(h: Host, a: AbsPath)
  {
    forall k :: 0 <= k < |a.segs| ==> IsName(h, a.segs[k])
  }

  /** `os.path.normpath` on the segments of a rooted path: `.` and empty
      segments vanish, `..` removes the segment before it (and nothing at
      the root). */
  function Normalize(h: Host, segs: seq<string>): (r: seq<string>)
    requires forall k :: 0 <= k < |segs| ==> NoSep(h, segs[k])
    ensures forall k :: 0 <= k < |r| ==> IsName(h, r[k])
    ensures |r| <= |segs|
  {
    if segs == [] then []
    else
      var prev := Normalize(h, segs[..|segs| - 1]);
      var s := segs[|segs| - 1];
      if s == "" || s == "." then prev
      else if s == ".." then (if prev == [] then [] else prev[..|prev| - 1])
      else prev + [s]
  }

  /** `os.path.abspath(p)` with the current directory `cwd`. A drive-relative
      path on another drive (`E:x`) starts at that drive's root. */
  function Abspath(h: Host, cwd: AbsPath, p: string): (r: AbsPath)
    requires ValidAbs(h, cwd)
    ensures ValidAbs(h, r)
  {
    var (d, rest) := SplitDrive(h, p);
    var drive := if d == "" then cwd.drive else d;
    var base := if IsRooted(h, rest) then [] else if d == "" || d == cwd.drive then cwd.segs else [];
    AbsPath(drive, Normalize(h, base + Segments(h, rest)))
  }

  /** The text of an absolute path as `os.path.abspath` returns it. */
  function Render(h: Host, a: AbsPath): string
  {
    a.drive + [Sep(h)] + JoinWith(Sep(h), a.segs)
  }

  /** `os.path.join(a, b)`: `b` after `a`, with one separator between them
      unless `a` is empty or ends in one. A rooted `b` replaces `a` but keeps
      its drive; a `b` on another drive replaces `a` entirely. */
  function Join(h: Host, a: string, b: string): string
  {
    var (ad, arest) := SplitDrive(h, a);
    var (bd, brest) := SplitDrive(h, b);
    if IsRooted(h, brest) then (if bd != "" then b else ad + brest)
    else if bd != "" && bd != ad then b
    else if arest == "" || IsSep(h, arest[|arest| - 1]) then ad + arest + brest
    else ad + arest + [Sep(h)] + brest
  }

  /** Joining keeps the suffix of a `.md` name. */
  lemma JoinKeepsSuffix(h: Host, a: string, b: string)
    requires HasSuffix(b, ".md")
    ensures HasSuffix(Join(h, a, b), ".md")
  {
    var (ad, arest) := SplitDrive(h, a);
    var (bd, brest) := SplitDrive(h, b);
    if bd != "" {
      assert |b| >= 5 by {
        assert b[1] == ':' && b[|b| - 3] == '.' && b[|b| - 2] == 'm';
      }
      assert brest == b[2..];
      assert brest[|brest| - 3..] == b[|b| - 3..];
    } else {
      assert brest == b;
    }
    var r := Join(h, a, b);
    if r != b {
      assert HasSuffix(r, brest) by {
        assert r[|r| - |brest|..] == brest;
      }
      assert r[|r| - 3..] == brest[|brest| - 3..];
    }
  }

  /** The directory holding `p` (`os.path.dirname`): the drive and
      everything before the last separator, with the trailing separators
      removed unless only separators remain. */
  function Dirname(h: Host, p: string): string
  {
    var (d, rest) := SplitDrive(h, p);
    d + TrimSeps(h, rest[..AfterLastSep(h, rest)])
  }

  /** `s` without its trailing separators, unless only separators remain. */
  function TrimSeps(h: Host, s: string): string
  {
    var trimmed := s[..LastNonSep(h, s)];
    if trimmed == "" then s else trimmed
  }

  /** A directory as `os.path.dirname` writes it back: the drive, then the
      rest without its trailing separators unless only separators remain
      (`/docs/` becomes `/docs`, while `/` and `D:/` stay as they are). */
  function Trimmed(h: Host, d: string): string
  {
    SplitDrive(h, d).0 + TrimSeps(h, SplitDrive(h, d).1)
  }

  /** The index just after the last separator of `s`, or 0. */
  function AfterLastSep(h: Host, s: string): (i: nat)
    ensures i <= |s|
    ensures i == 0 || IsSep(h, s[i - 1])
    ensures forall k :: i <= k < |s| ==> !IsSep(h, s[k])
  {
    if s == [] || IsSep(h, s[|s| - 1]) then |s| else AfterLastSep(h, s[..|s| - 1])
  }

  /** The length of `s` without its trailing separators. */
  function LastNonSep(h: Host, s: string): (i: nat)
    ensures i <= |s|
    ensures forall k :: i <= k < |s| ==> IsSep(h, s[k])
    ensures i == 0 || !IsSep(h, s[i - 1])
  {
    if s == [] || !IsSep(h, s[|s| - 1]) then |s| else LastNonSep(h, s[..|s| - 1])
  }

  /** Length of the longest common prefix of two segment lists. */
  function CommonPrefix(a: seq<string>, b: seq<string>): (n: nat)
    ensures n <= |a| && n <= |b|
    ensures a[..n] == b[..n]
    ensures n == |a| || n == |b| || a[n] != b[n]
  {
    if a == [] || b == [] || a[0] != b[0] then 0
    else 1 + CommonPrefix(a[1..], b[1..])
  }

  function Parents(n: nat): (r: seq<string>)
    ensures |r| == n && forall k :: 0 <= k < n ==> r[k] == ".."
  {
    if n == 0 then [] else [".."] + Parents(n - 1)
  }

  /** The path that leads from `start` to `path` (`os.path.relpath`): one
      `..` for each segment of `start` past their common prefix, then the
      rest of `path`, or `.` when they are the same. It raises ValueError,
      here None, for an empty path and for a path on another drive than
      `start`. */
  function Relpath(h: Host, cwd: AbsPath, path: string, start: string): Option<string>
    requires ValidAbs(h, cwd)
  {
    if path == "" then None
    else
      var p, s := Abspath(h, cwd, path), Abspath(h, cwd, start);
      if p.drive != s.drive then None
      else
        var n := CommonPrefix(s.segs, p.segs);
        var rel := Parents(|s.segs| - n) + p.segs[n..];
        Some(if rel == [] then "." else JoinWith(Sep(h), rel))
  }

  /** A text `os.path.splitdrive` can never read a drive in: on Windows it
      holds no `:`. */
  predicate DriveFree(h: Host, s: string)
  {
    h == Windows ==> ':' !in s
  }

  /** A name a directory listing can hold: non-empty, without a
      separator, and without a drive. */
  predicate IsFileName(h: Host, name: string)
  {
    name != "" && DriveFree(h, name) && NoSep(h, name)
  }

  /** A directory written without a trailing separator, as `os.walk`
      writes its roots when its top is written so. */
  predicate NoTrailingSep(h: Host, d: string)
  {
    SplitDrive(h, d).1 == "" || !IsSep(h, SplitDrive(h, d).1[|SplitDrive(h, d).1| - 1])
  }

  /** A relative path made of proper names only, with no drive: what
      `os.walk` adds below its root. */
  predicate IsRelativeNames(h: Host, sub: string)
  {
    DriveFree(h, sub) && !IsRooted(h, sub) && Segments(h, sub) != []
    && forall k :: 0 <= k < |Segments(h, sub)| ==> IsName(h, Segments(h, sub)[k])
  }

  lemma {:induction false} NonEmptyAppend(x: seq<string>, y: seq<string>)
    ensures NonEmpty(x + y) == NonEmpty(x) + NonEmpty(y)
    decreases |x|
  {
    if x == [] {
      assert x + y == y;
    } else {
      assert (x + y)[0] == x[0] && (x + y)[1..] == x[1..] + y;
      NonEmptyAppend(x[1..], y);
      if x[0] != "" {
        assert NonEmpty(x + y) == [x[0]] + (NonEmpty(x[1..]) + NonEmpty(y));
      }
    }
  }

  /** A separator splits the segments of a path into those before it and
      those after it. */
  lemma SegmentsSep(h: Host, a: string, c: char, b: string)
    requires IsSep(h, c)
    ensures Segments(h, a + [c] + b) == Segments(h, a) + Segments(h, b)
  {
    var isSep := c => IsSep(h, c);
    SplitWhereSep(a, c, b, isSep);
    NonEmptyAppend(SplitWhere(a, isSep), SplitWhere(b, isSep));
  }

  /** Joining a path with something, with or without a separator between
      them, puts the segments of the two side by side. */
  lemma SegmentsJoined(h: Host, a: string, mid: string, b: string)
    requires mid == "" || mid == [Sep(h)]
    requires mid == "" ==> a == "" || IsSep(h, a[|a| - 1])
    ensures Segments(h, a + mid + b) == Segments(h, a) + Segments(h, b)
  {
    if mid != "" {
      SegmentsSep(h, a, Sep(h), b);
    } else if a == "" {
      assert a + mid + b == b;
      SegmentsEmpty(h);
    } else {
      var a', c := a[..|a| - 1], a[|a| - 1];
      assert a' + [c] == a;
      assert a + mid + b == a' + [c] + b;
      SegmentsTrailingSep(h, a', c, b);
    }
  }

  lemma SegmentsEmpty(h: Host)
    ensures Segments(h, "") == []
  {
    assert SplitWhere("", c => IsSep(h, c)) == [""];
  }

  /** A path ending in a separator has the segments of the path before it,
      and so does that path with anything after it. */
  lemma SegmentsTrailingSep(h: Host, a: string, c: char, b: string)
    requires IsSep(h, c)
    ensures Segments(h, a + [c] + b) == Segments(h, a + [c]) + Segments(h, b)
  {
    SegmentsSep(h, a, c, b);
    SegmentsSep(h, a, c, "");
    SegmentsEmpty(h);
    assert a + [c] + "" == a + [c];
  }

  /** Normalising proper names appended to a list leaves them as they are. */
  lemma {:induction false} NormalizeNames(h: Host, x: seq<string>, y: seq<string>)
    requires forall k :: 0 <= k < |x| ==> NoSep(h, x[k])
    requires forall k :: 0 <= k < |x + y| ==> NoSep(h, (x + y)[k])
    requires forall k :: 0 <= k < |y| ==> IsName(h, y[k])
    ensures Normalize(h, x + y) == Normalize(h, x) + y
    decreases |y|
  {
    if y == [] {
      assert x + y == x;
    } else {
      var y' := y[..|y| - 1];
      assert (x + y)[..|x + y| - 1] == x + y';
      assert forall k :: 0 <= k < |x + y'| ==> (x + y')[k] == (x + y)[k];
      NormalizeNames(h, x, y');
    }
  }

  /** What `os.path.join` puts between a directory (without its drive) and
      a relative name: a separator unless the directory is empty or
      already ends with one. */
  function JoinMid(h: Host, arest: string): (r: string)
    ensures r == "" || r == [Sep(h)]
  {
    if arest == "" || IsSep(h, arest[|arest| - 1]) then "" else [Sep(h)]
  }

  /** `os.path.join(a, sub)` for a relative `sub` without a drive. */
  lemma JoinRelative(h: Host, a: string, sub: string)
    requires DriveFree(h, sub) && !IsRooted(h, sub)
    ensures Join(h, a, sub) == SplitDrive(h, a).0 + SplitDrive(h, a).1 + JoinMid(h, SplitDrive(h, a).1) + sub
  {
    DriveFreeSplit(h, sub);
    var ad, arest := SplitDrive(h, a).0, SplitDrive(h, a).1;
    assert Join(h, a, sub) == if arest == "" || IsSep(h, arest[|arest| - 1]) then ad + arest + sub
                              else ad + arest + [Sep(h)] + sub;
  }

  /** A drive-free text splits into no drive and itself. */
  lemma DriveFreeSplit(h: Host, s: string)
    requires DriveFree(h, s)
    ensures SplitDrive(h, s) == ("", s)
  {
    if h == Windows && |s| >= 2 {
      assert s[1] in s;
    }
  }

  /** The drive of `os.path.join(a, sub)` is the drive of `a`. */
  lemma SplitDriveJoin(h: Host, a: string, sub: string)
    requires DriveFree(h, sub) && !IsRooted(h, sub)
    ensures SplitDrive(h, Join(h, a, sub))
            == (SplitDrive(h, a).0, SplitDrive(h, a).1 + JoinMid(h, SplitDrive(h, a).1) + sub)
  {
    JoinRelative(h, a, sub);
    var ad, arest := SplitDrive(h, a).0, SplitDrive(h, a).1;
    var tail := arest + JoinMid(h, arest) + sub;
    if ad != "" {
      DriveKept(h, ad, tail);
      assert ad + arest + JoinMid(h, arest) + sub == ad + tail;
    } else {
      SplitDriveParts(h, a);
      NoDriveKept(h, a, sub);
    }
  }

  lemma DriveKept(h: Host, ad: string, tail: string)
    requires h == Windows && |ad| == 2 && ad[1] == ':'
    ensures SplitDrive(h, ad + tail) == (ad, tail)
  {
    assert (ad + tail)[..2] == ad && (ad + tail)[2..] == tail;
  }

  lemma NoDriveKept(h: Host, a: string, sub: string)
    requires SplitDrive(h, a).0 == "" && DriveFree(h, sub)
    ensures SplitDrive(h, a + JoinMid(h, a) + sub) == ("", a + JoinMid(h, a) + sub)
  {
    var j := a + JoinMid(h, a) + sub;
    if h == Windows && |j| >= 2 {
      if |a| >= 2 {
        assert j[1] == a[1];
      } else if |a| == 1 {
        if JoinMid(h, a) == "" {
          assert j[1] == sub[0] && sub[0] in sub;
        } else {
          assert j[1] == Sep(h);
        }
      } else {
        assert j == sub && j[1] in sub;
      }
    }
  }

  /** Two paths on the same drive, both rooted or both not, whose segments
      differ by trailing names, have absolute paths that differ by them too. */
  lemma AbspathExtended(h: Host, cwd: AbsPath, p: string, q: string, t: seq<string>)
    requires ValidAbs(h, cwd)
    requires forall k :: 0 <= k < |t| ==> IsName(h, t[k])
    requires SplitDrive(h, q).0 == SplitDrive(h, p).0
    requires IsRooted(h, SplitDrive(h, q).1) == IsRooted(h, SplitDrive(h, p).1)
    requires Segments(h, SplitDrive(h, q).1) == Segments(h, SplitDrive(h, p).1) + t
    ensures Abspath(h, cwd, q) == AbsPath(Abspath(h, cwd, p).drive, Abspath(h, cwd, p).segs + t)
  {
    var (d, rest) := SplitDrive(h, p);
    var base := if IsRooted(h, rest) then [] else if d == "" || d == cwd.drive then cwd.segs else [];
    assert base + Segments(h, SplitDrive(h, q).1) == (base + Segments(h, rest)) + t;
    NormalizeNames(h, base + Segments(h, rest), t);
  }

  /** `os.path.abspath(os.path.join(a, sub))` is the absolute path of `a`
      followed by the names of `sub`. */
  lemma AbspathJoin(h: Host, cwd: AbsPath, a: string, sub: string)
    requires ValidAbs(h, cwd) && IsRelativeNames(h, sub)
    ensures Abspath(h, cwd, Join(h, a, sub))
            == AbsPath(Abspath(h, cwd, a).drive, Abspath(h, cwd, a).segs + Segments(h, sub))
  {
    var arest := SplitDrive(h, a).1;
    var mid := JoinMid(h, arest);
    SplitDriveJoin(h, a, sub);
    var rest := arest + mid + sub;
    assert IsRooted(h, rest) == IsRooted(h, arest) by {
      if arest == "" { assert rest == mid + sub; }
      else { assert rest[0] == arest[0]; }
    }
    SegmentsJoined(h, arest, mid, sub);
    AbspathExtended(h, cwd, a, Join(h, a, sub), Segments(h, sub));
  }

  /** A list shares all of itself with any extension of it. */
  lemma CommonPrefixExtension(a: seq<string>, t: seq<string>)
    ensures CommonPrefix(a, a + t) == |a|
  {
    assert (a + t)[..|a|] == a;
  }

  /** `os.path.relpath` of a path lying below `start` names what lies
      between them. */
  lemma RelpathBelow(h: Host, cwd: AbsPath, path: string, start: string, t: seq<string>)
    requires ValidAbs(h, cwd) && path != "" && t != []
    requires Abspath(h, cwd, path) == AbsPath(Abspath(h, cwd, start).drive, Abspath(h, cwd, start).segs + t)
    ensures Relpath(h, cwd, path, start) == Some(JoinWith(Sep(h), t))
  {
    var s := Abspath(h, cwd, start);
    var p := Abspath(h, cwd, path);
    CommonPrefixExtension(s.segs, t);
    assert p.segs[|s.segs|..] == t;
    assert Parents(|s.segs| - CommonPrefix(s.segs, p.segs)) + p.segs[CommonPrefix(s.segs, p.segs)..] == t;
  }

  /** `os.path.relpath(os.path.join(start, sub), start)` gives back the
      names of `sub`, joined with the host's separator. */
  lemma RelpathOfJoin(h: Host, cwd: AbsPath, start: string, sub: string)
    requires ValidAbs(h, cwd) && IsRelativeNames(h, sub)
    ensures Relpath(h, cwd, Join(h, start, sub), start) == Some(JoinWith(Sep(h), Segments(h, sub)))
  {
    AbspathJoin(h, cwd, start, sub);
    JoinRelative(h, start, sub);
    assert sub != "" by {
      assert Segments(h, "") == [] by {
        assert SplitWhere("", c => IsSep(h, c)) == [""];
      }
    }
    RelpathBelow(h, cwd, Join(h, start, sub), start, Segments(h, sub));
  }

  /** In `pre + name`, where `pre` is empty or ends with a separator and
      `name` holds none, the last separator is the last one of `pre`. */
  lemma JoinedSplit(h: Host, pre: string, name: string)
    requires NoSep(h, name)
    requires pre == "" || IsSep(h, pre[|pre| - 1])
    ensures AfterLastSep(h, pre + name) == |pre|
    ensures (pre + name)[..|pre|] == pre && (pre + name)[|pre|..] == name
  {
    var rest := pre + name;
    assert forall k :: |pre| <= k < |rest| ==> rest[k] == name[k - |pre|];
    if pre != "" {
      assert IsSep(h, rest[|pre| - 1]);
    }
  }

  /** `os.path.dirname(os.path.join(d, name))` is `d` without its trailing
      separators, and `d` itself when it has none. */
  lemma DirnameOfJoin(h: Host, d: string, name: string)
    requires IsFileName(h, name)
    ensures Dirname(h, Join(h, d, name)) == Trimmed(h, d)
    ensures NoTrailingSep(h, d) ==> Dirname(h, Join(h, d, name)) == d
  {
    var arest := SplitDrive(h, d).1;
    SplitDriveJoin(h, d, name);
    JoinedSplit(h, arest + JoinMid(h, arest), name);
    TrimSepsMid(h, arest);
    if NoTrailingSep(h, d) {
      TrimmedWhole(h, d);
    }
  }

  /** A directory without a trailing separator is kept whole. */
  lemma TrimmedWhole(h: Host, d: string)
    requires NoTrailingSep(h, d)
    ensures Trimmed(h, d) == d
  {
    TrimSepsMid(h, SplitDrive(h, d).1);
    SplitDriveParts(h, d);
  }

  /** The drive and the rest put back together are the path. */
  lemma SplitDriveParts(h: Host, p: string)
    ensures SplitDrive(h, p).0 + SplitDrive(h, p).1 == p
  {
  }

  /** The separator `os.path.join` adds is trimmed again; a directory
      without a trailing separator is kept whole. */
  lemma TrimSepsMid(h: Host, arest: string)
    ensures TrimSeps(h, arest + JoinMid(h, arest)) == TrimSeps(h, arest)
    ensures (arest == "" || !IsSep(h, arest[|arest| - 1])) ==> TrimSeps(h, arest) == arest
  {
    if arest != "" && !IsSep(h, arest[|arest| - 1]) {
      var a := arest + [Sep(h)];
      assert a[..|a| - 1] == arest;
      assert LastNonSep(h, a) == |arest|;
      assert a[..|arest|] == arest;
    } else {
      assert arest + JoinMid(h, arest) == arest;
    }
  }

  /** The name is what follows the last separator of `os.path.join(d, name)`. */
  lemma NameOfJoin(h: Host, d: string, name: string)
    requires IsFileName(h, name)
    ensures var rest := SplitDrive(h, Join(h, d, name)).1;
            rest[AfterLastSep(h, rest)..] == name
  {
    var arest := SplitDrive(h, d).1;
    SplitDriveJoin(h, d, name);
    JoinedSplit(h, arest + JoinMid(h, arest), name);
  }

  /** Joining a name onto a directory loses nothing: equal paths come from
      equal names and from directories that are equal once their trailing
      separators are removed (`/docs` and `/docs/` give the same paths). */
  lemma JoinInjective(h: Host, d1: string, n1: string, d2: string, n2: string)
    requires IsFileName(h, n1) && IsFileName(h, n2)
    requires Join(h, d1, n1) == Join(h, d2, n2)
    ensures Trimmed(h, d1) == Trimmed(h, d2) && n1 == n2
  {
    DirnameOfJoin(h, d1, n1);
    DirnameOfJoin(h, d2, n2);
    NameOfJoin(h, d1, n1);
    NameOfJoin(h, d2, n2);
  }

  /** `os.path.abspath(os.path.join(a, sub))` is on the drive of
      `os.path.abspath(a)` when `sub` is relative and has no drive. */
  lemma AbspathDriveJoin(h: Host, cwd: AbsPath, a: string, sub: string)
    requires ValidAbs(h, cwd) && DriveFree(h, sub) && !IsRooted(h, sub)
    ensures Abspath(h, cwd, Join(h, a, sub)).drive == Abspath(h, cwd, a).drive
  {
    SplitDriveJoin(h, a, sub);
  }

  /** `os.path.relpath` fails only for an empty path or a path on another
      drive than `start`. */
  lemma RelpathDefined(h: Host, cwd: AbsPath, path: string, start: string)
    requires ValidAbs(h, cwd)
    ensures Relpath(h, cwd, path, start).Some? <==>
              path != "" && Abspath(h, cwd, path).drive == Abspath(h, cwd, start).drive
  {
  }

}
