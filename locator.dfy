/** `collect_markdown_files(directory)`: every file of the directory walk
    whose name ends in `.md`, joined onto the directory it was found in,
    then sorted in place with Python's string order. md_to_pdf.py also
    warns about names holding a character Windows refuses, and keeps them. */
module Locator {
  import opened Common
  import opened Text
  import opened Paths

  /** One `(root, dirs, files)` triple of `os.walk`; the sub-directory list
      only steers the walk, which is given here as a whole. */
  datatype WalkStep = WalkStep(root: string, files: seq<string>)

  /** `r'\/:*?"<>|'`, in that order. */
  const InvalidChars: string := "\\/:*?\"<>|"

  /** The `.md` paths of one directory, in the order the walk lists them. */
  function FoundIn(h: Host, root: string, files: seq<string>): seq<string>
  {
    if files == [] then []
    else
      var f := files[|files| - 1];
      FoundIn(h, root, files[..|files| - 1]) + (if HasSuffix(f, ".md") then [Join(h, root, f)] else [])
  }

  /** The `.md` paths of the whole walk, in walk order. */
  function Found(h: Host, walk: seq<WalkStep>): seq<string>
  {
    if walk == [] then []
    else
      var step := walk[|walk| - 1];
      Found(h, walk[..|walk| - 1]) + FoundIn(h, step.root, step.files)
  }

  /** The warnings for one name, one per refused character it holds, in the
      order of `InvalidChars`. */
  function CharWarnings(chars: string, name: string): seq<Warning>
  {
    if chars == [] then []
    else
      var c := chars[|chars| - 1];
      CharWarnings(chars[..|chars| - 1], name) + (if c in name then [SuspiciousFileName(c, name)] else [])
  }

  /** The warnings for the names of one directory. */
  function NameWarningsIn(v: Variant, files: seq<string>): seq<Warning>
  {
    if files == [] then []
    else
      var f := files[|files| - 1];
      NameWarningsIn(v, files[..|files| - 1])
      + (if HasSuffix(f, ".md") && v.ChecksFileNames() then CharWarnings(InvalidChars, f) else [])
  }

  /** The warnings of the whole walk. */
  function NameWarnings(v: Variant, walk: seq<WalkStep>): seq<Warning>
  {
    if walk == [] then []
    else NameWarnings(v, walk[..|walk| - 1]) + NameWarningsIn(v, walk[|walk| - 1].files)
  }

  /** A warning names a refused character the name really holds. */
  lemma {:induction false} CharWarningsSound(chars: string, name: string, w: Warning)
    requires w in CharWarnings(chars, name)
    ensures w.SuspiciousFileName? && w.c in chars && w.c in name && w.name == name
  {
    if chars != [] {
      var c := chars[|chars| - 1];
      if w in CharWarnings(chars[..|chars| - 1], name) {
        CharWarningsSound(chars[..|chars| - 1], name, w);
      }
    }
  }

  /** Every refused character a name holds is reported. */
  lemma {:induction false} CharWarningsComplete(chars: string, name: string, c: char)
    requires c in chars && c in name
    ensures SuspiciousFileName(c, name) in CharWarnings(chars, name)
  {
    if c != chars[|chars| - 1] {
      assert c in chars[..|chars| - 1] by {
        var k :| 0 <= k < |chars| && chars[k] == c;
        assert chars[..|chars| - 1][k] == c;
      }
      CharWarningsComplete(chars[..|chars| - 1], name, c);
    }
  }

  /** Only the annotating PDF variant warns about names. */
  lemma {:induction false} NoNameWarnings(v: Variant, walk: seq<WalkStep>)
    requires !v.ChecksFileNames()
    ensures NameWarnings(v, walk) == []
  {
    if walk != [] {
      NoNameWarnings(v, walk[..|walk| - 1]);
      NoNameWarningsIn(v, walk[|walk| - 1].files);
    }
  }

  lemma {:induction false} NoNameWarningsIn(v: Variant, files: seq<string>)
    requires !v.ChecksFileNames()
    ensures NameWarningsIn(v, files) == []
  {
    if files != [] {
      NoNameWarningsIn(v, files[..|files| - 1]);
    }
  }

  /** Every path found in one directory ends in `.md`. */
  lemma {:induction false} FoundInAllMarkdown(h: Host, root: string, files: seq<string>)
    ensures forall p :: p in FoundIn(h, root, files) ==> HasSuffix(p, ".md")
  {
    if files != [] {
      FoundInAllMarkdown(h, root, files[..|files| - 1]);
      var f := files[|files| - 1];
      if HasSuffix(f, ".md") {
        JoinKeepsSuffix(h, root, f);
      }
    }
  }

  /** Every path the walk yields ends in `.md`. */
  lemma {:induction false} FoundAllMarkdown(h: Host, walk: seq<WalkStep>)
    ensures forall p :: p in Found(h, walk) ==> HasSuffix(p, ".md")
  {
    if walk != [] {
      FoundAllMarkdown(h, walk[..|walk| - 1]);
      FoundInAllMarkdown(h, walk[|walk| - 1].root, walk[|walk| - 1].files);
    }
  }

  /** Every `.md` name of a directory is found, joined onto its root; a
      name with refused characters is no exception. */
  lemma {:induction false} FoundInComplete(h: Host, root: string, files: seq<string>, k: nat)
    requires k < |files| && HasSuffix(files[k], ".md")
    ensures Join(h, root, files[k]) in FoundIn(h, root, files)
  {
    if k < |files| - 1 {
      FoundInComplete(h, root, files[..|files| - 1], k);
    }
  }

  /** Every `.md` name of every directory of the walk is found. */
  lemma {:induction false} FoundComplete(h: Host, walk: seq<WalkStep>, s: nat, k: nat)
    requires s < |walk| && k < |walk[s].files| && HasSuffix(walk[s].files[k], ".md")
    ensures Join(h, walk[s].root, walk[s].files[k]) in Found(h, walk)
  {
    if s < |walk| - 1 {
      FoundComplete(h, walk[..|walk| - 1], s, k);
    } else {
      FoundInComplete(h, walk[s].root, walk[s].files, k);
    }
  }

  /** No path occurs twice. */
  predicate Distinct(s: seq<string>)
  {
    forall i, j :: 0 <= i < j < |s| ==> s[i] != s[j]
  }

  /** What `os.walk` yields for one directory: the distinct names of the
      files in it. */
  predicate ValidStep(h: Host, step: WalkStep)
  {
    Distinct(step.files) && forall k :: 0 <= k < |step.files| ==> IsFileName(h, step.files[k])
  }

  /** What `os.walk` yields as a whole: every directory once. Roots are
      compared without their trailing separators, as `/docs/` and `/docs`
      name one directory; the top may be a drive or filesystem root
      (`/`, `D:/`) or carry a trailing separator. */
  predicate ValidWalk(h: Host, walk: seq<WalkStep>)
  {
    (forall s :: 0 <= s < |walk| ==> ValidStep(h, walk[s]))
    && forall s, t :: 0 <= s < t < |walk| ==> Trimmed(h, walk[s].root) != Trimmed(h, walk[t].root)
  }

  /** The walk is `os.walk(top)`: each root is `top` itself or `top`
      joined with a relative path that has no drive. */
  ghost predicate WalkBelow(h: Host, top: string, walk: seq<WalkStep>)
  {
    forall s :: 0 <= s < |walk| ==>
      walk[s].root == top || exists sub :: DriveFree(h, sub) && !IsRooted(h, sub) && walk[s].root == Join(h, top, sub)
  }

  /** Every path a walk of `top` yields has a path relative to `top`:
      `os.path.relpath(p, top)` does not raise. */
  lemma FoundBelow(h: Host, cwd: AbsPath, top: string, walk: seq<WalkStep>, p: string)
    requires ValidAbs(h, cwd) && ValidWalk(h, walk) && WalkBelow(h, top, walk)
    requires p in Found(h, walk)
    ensures Relpath(h, cwd, p, top).Some?
  {
    FoundSound(h, walk, p);
    var s, k :| 0 <= s < |walk| && 0 <= k < |walk[s].files| && p == Join(h, walk[s].root, walk[s].files[k]);
    var root, f := walk[s].root, walk[s].files[k];
    assert IsFileName(h, f) && f[0] in f;
    AbspathDriveJoin(h, cwd, root, f);
    JoinRelative(h, root, f);
    if root != top {
      var sub :| DriveFree(h, sub) && !IsRooted(h, sub) && root == Join(h, top, sub);
      AbspathDriveJoin(h, cwd, top, sub);
    }
    RelpathDefined(h, cwd, p, top);
  }

  /** Every path found in a directory is one of its names joined onto it. */
  lemma {:induction false} FoundInSound(h: Host, root: string, files: seq<string>, p: string)
    requires p in FoundIn(h, root, files)
    ensures exists k :: 0 <= k < |files| && p == Join(h, root, files[k])
  {
    var n := |files| - 1;
    if p in FoundIn(h, root, files[..n]) {
      FoundInSound(h, root, files[..n], p);
      var k :| 0 <= k < n && p == Join(h, root, files[..n][k]);
      assert files[..n][k] == files[k];
    } else {
      assert p == Join(h, root, files[n]);
    }
  }

  /** Every path the walk yields is a name of one of its steps joined onto
      that step's root. */
  lemma {:induction false} FoundSound(h: Host, walk: seq<WalkStep>, p: string)
    requires p in Found(h, walk)
    ensures exists s, k :: 0 <= s < |walk| && 0 <= k < |walk[s].files| && p == Join(h, walk[s].root, walk[s].files[k])
  {
    var n := |walk| - 1;
    if p in Found(h, walk[..n]) {
      FoundSound(h, walk[..n], p);
      var s, k :| 0 <= s < n && 0 <= k < |walk[..n][s].files| && p == Join(h, walk[..n][s].root, walk[..n][s].files[k]);
      assert walk[..n][s] == walk[s];
    } else {
      FoundInSound(h, walk[n].root, walk[n].files, p);
    }
  }

  /** The paths found in one directory of a valid walk are distinct. */
  lemma {:induction false} FoundInDistinct(h: Host, root: string, files: seq<string>)
    requires ValidStep(h, WalkStep(root, files))
    ensures Distinct(FoundIn(h, root, files))
  {
    if files != [] {
      var n := |files| - 1;
      var f := files[n];
      assert ValidStep(h, WalkStep(root, files[..n])) by {
        assert forall k :: 0 <= k < n ==> files[..n][k] == files[k];
      }
      FoundInDistinct(h, root, files[..n]);
      var x := Join(h, root, f);
      if HasSuffix(f, ".md") && x in FoundIn(h, root, files[..n]) {
        FoundInSound(h, root, files[..n], x);
        var k :| 0 <= k < n && x == Join(h, root, files[..n][k]);
        assert files[..n][k] == files[k];
        JoinInjective(h, root, files[k], root, f);
        assert false;
      }
      DistinctConcat(FoundIn(h, root, files[..n]), if HasSuffix(f, ".md") then [x] else []);
    }
  }

  /** The paths of a valid walk are distinct: names are distinct within a
      directory, and directories are distinct. */
  lemma {:induction false} FoundDistinct(h: Host, walk: seq<WalkStep>)
    requires ValidWalk(h, walk)
    ensures Distinct(Found(h, walk))
  {
    if walk != [] {
      var n := |walk| - 1;
      var last := walk[n];
      ValidWalkInit(h, walk);
      FoundDistinct(h, walk[..n]);
      FoundInDistinct(h, last.root, last.files);
      forall p | p in Found(h, walk[..n]) && p in FoundIn(h, last.root, last.files)
        ensures false
      {
        FoundApart(h, walk[..n], last, p);
      }
      DistinctConcat(Found(h, walk[..n]), FoundIn(h, last.root, last.files));
    }
  }

  /** The steps of a valid walk before its last one form a valid walk. */
  lemma ValidWalkInit(h: Host, walk: seq<WalkStep>)
    requires ValidWalk(h, walk) && walk != []
    ensures ValidWalk(h, walk[..|walk| - 1])
    ensures walk[..|walk| - 1] + [walk[|walk| - 1]] == walk
  {
    var n := |walk| - 1;
    assert forall s :: 0 <= s < n ==> walk[..n][s] == walk[s];
  }

  /** A path found under the earlier steps of a valid walk is not found
      again under its last step. */
  lemma FoundApart(h: Host, walk: seq<WalkStep>, last: WalkStep, p: string)
    requires ValidWalk(h, walk + [last])
    requires p in Found(h, walk)
    ensures p !in FoundIn(h, last.root, last.files)
  {
    var all := walk + [last];
    assert all[|walk|] == last;
    FoundSound(h, walk, p);
    var s, k :| 0 <= s < |walk| && 0 <= k < |walk[s].files| && p == Join(h, walk[s].root, walk[s].files[k]);
    assert all[s] == walk[s];
    if p in FoundIn(h, last.root, last.files) {
      FoundInSound(h, last.root, last.files, p);
      var k' :| 0 <= k' < |last.files| && p == Join(h, last.root, last.files[k']);
      JoinInjective(h, walk[s].root, walk[s].files[k], last.root, last.files[k']);
    }
  }

  lemma DistinctConcat(a: seq<string>, b: seq<string>)
    requires Distinct(a) && Distinct(b)
    requires forall p :: p in a && p in b ==> false
    ensures Distinct(a + b)
  {
    forall i, j | 0 <= i < j < |a + b| ensures (a + b)[i] != (a + b)[j] {
      if i < |a| && j >= |a| {
        assert (a + b)[i] in a && (a + b)[j] in b;
      }
    }
  }

  /** A rearrangement of distinct paths is distinct. */
  lemma DistinctPermutation(a: seq<string>, b: seq<string>)
    requires Distinct(a) && multiset(a) == multiset(b)
    ensures Distinct(b)
  {
    forall i, j | 0 <= i < j < |b| ensures b[i] != b[j] {
      if b[i] == b[j] {
        assert b == b[..i] + [b[i]] + b[i + 1..j] + [b[j]] + b[j + 1..];
        assert multiset(b)[b[i]] >= 2;
        DistinctCount(a, b[i]);
      }
    }
  }

  /** A distinct list holds each path at most once. */
  lemma {:induction false} DistinctCount(a: seq<string>, x: string)
    requires Distinct(a)
    ensures multiset(a)[x] <= 1
  {
    if a != [] {
      assert Distinct(a[1..]) by {
        assert forall i :: 0 <= i < |a| - 1 ==> a[1..][i] == a[i + 1];
      }
      DistinctCount(a[1..], x);
      assert a == [a[0]] + a[1..];
      if x == a[0] {
        assert x !in a[1..];
      }
    }
  }

  // ---------------------------------------------------------------------
  // Python's string order and `list.sort()`

  /** `a <= b` on Python strings: code point by code point, a proper prefix
      first. */
  predicate LexLe(a: string, b: string)
  {
    a == [] || (b != [] && (a[0] < b[0] || (a[0] == b[0] && LexLe(a[1..], b[1..]))))
  }

  lemma {:induction false} LexLeTotal(a: string, b: string)
    ensures LexLe(a, b) || LexLe(b, a)
  {
    if a != [] && b != [] && a[0] == b[0] {
      LexLeTotal(a[1..], b[1..]);
    }
  }

  lemma {:induction false} LexLeTrans(a: string, b: string, c: string)
    requires LexLe(a, b) && LexLe(b, c)
    ensures LexLe(a, c)
  {
    if a != [] && b != [] && c != [] && a[0] == b[0] == c[0] {
      LexLeTrans(a[1..], b[1..], c[1..]);
    }
  }

  lemma {:induction false} LexLeAntisymmetric(a: string, b: string)
    requires LexLe(a, b) && LexLe(b, a)
    ensures a == b
  {
    if a != [] && b != [] {
      LexLeAntisymmetric(a[1..], b[1..]);
      assert a == [a[0]] + a[1..] && b == [b[0]] + b[1..];
    }
  }

  /** Ascending in Python's string order. */
  predicate Sorted(s: seq<string>)
  {
    forall i, j :: 0 <= i < j < |s| ==> LexLe(s[i], s[j])
  }

  /** Each element is at most its successor. */
  predicate AdjacentSorted(s: seq<string>)
  {
    forall k :: 0 < k < |s| ==> LexLe(s[k - 1], s[k])
  }

  lemma {:induction false} AdjacentToSorted(s: seq<string>)
    requires AdjacentSorted(s)
    ensures Sorted(s)
  {
    forall i, j | 0 <= i < j < |s| ensures LexLe(s[i], s[j]) {
      AdjacentChain(s, i, j);
    }
  }

  lemma {:induction false} AdjacentChain(s: seq<string>, i: nat, j: nat)
    requires AdjacentSorted(s) && i < j < |s|
    ensures LexLe(s[i], s[j])
    decreases j - i
  {
    if i + 1 < j {
      AdjacentChain(s, i + 1, j);
      LexLeTrans(s[i], s[i + 1], s[j]);
    }
  }

  lemma SortedTail(s: seq<string>)
    requires Sorted(s) && s != []
    ensures Sorted(s[1..])
  {
    forall i, j | 0 <= i < j < |s| - 1 ensures LexLe(s[1..][i], s[1..][j]) {
      assert s[1..][i] == s[i + 1] && s[1..][j] == s[j + 1];
    }
  }

  /** `list.sort()` on an array: ascending, and the same names as before. */
  method SortInPlace(a: array<string>)
    modifies a
    ensures Sorted(a[..])
    ensures multiset(a[..]) == multiset(old(a[..]))
  {
    for i := 0 to a.Length
      invariant AscendingPrefix(a[..], i)
      invariant multiset(a[..]) == multiset(old(a[..]))
    {
      InsertLast(a, i);
    }
    AdjacentToSorted(a[..]);
  }

  /** `md_files.sort()`: the list is held in an array and sorted in place. */
  method Sort(names: seq<string>) returns (sorted: seq<string>)
    ensures Sorted(sorted)
    ensures multiset(sorted) == multiset(names)
  {
    var a := new string[|names|](i requires 0 <= i < |names| => names[i]);
    assert a[..] == names;
    SortInPlace(a);
    sorted := a[..];
  }

  /** The first `n` names are ascending. */
  predicate AscendingPrefix(s: seq<string>, n: nat)
  {
    forall k :: 0 < k < n && k < |s| ==> LexLe(s[k - 1], s[k])
  }

  /** The first `n + 1` names are ascending except, maybe, at the step
      into position `j`, where the name being inserted sits. */
  predicate AscendingExcept(s: seq<string>, n: nat, j: nat)
  {
    forall k :: 0 < k <= n && k < |s| && k != j ==> LexLe(s[k - 1], s[k])
  }

  /** The name before the inserted one is at most the name after it. */
  predicate Bridged(s: seq<string>, n: nat, j: nat)
  {
    0 < j < n < |s| ==> LexLe(s[j - 1], s[j + 1])
  }

  /** One pass of insertion sort: moves `a[i]` left past every larger name
      before it, so that `a[..i + 1]` is ascending. */
  method InsertLast(a: array<string>, i: nat)
    requires i < a.Length
    requires AscendingPrefix(a[..], i)
    modifies a
    ensures AscendingPrefix(a[..], i + 1)
    ensures multiset(a[..i + 1]) == multiset(old(a[..i + 1]))
    ensures a[i + 1..] == old(a[i + 1..])
    ensures multiset(a[..]) == multiset(old(a[..]))
  {
    var j := i;
    StartInsert(a[..], i);
    while j > 0 && !LexLe(a[j - 1], a[j])
      invariant 0 <= j <= i
      invariant AscendingExcept(a[..], i, j) && Bridged(a[..], i, j)
      invariant multiset(a[..i + 1]) == multiset(old(a[..i + 1]))
      invariant a[i + 1..] == old(a[i + 1..])
      invariant multiset(a[..]) == multiset(old(a[..]))
    {
      ghost var s := a[..];
      a[j - 1], a[j] := a[j], a[j - 1];
      assert a[..] == Swap(s, j - 1, j);
      SwapStep(s, i, j);
      SwapWithin(s, i + 1, j);
      j := j - 1;
    }
    FinishInsert(a[..], i, j);
  }

  /** Exchanging two neighbours below `n` changes neither the names below
      `n` nor anything from `n` on. */
  lemma SwapWithin(s: seq<string>, n: nat, k: nat)
    requires 0 < k < n <= |s|
    ensures multiset(Swap(s, k - 1, k)[..n]) == multiset(s[..n])
    ensures Swap(s, k - 1, k)[n..] == s[n..]
  {
    var t := Swap(s, k - 1, k);
    assert t[..n] == Swap(s[..n], k - 1, k);
    SwapPermutes(s[..n], k - 1, k);
  }

  /** Exchanging two names keeps the same names. */
  lemma SwapPermutes(s: seq<string>, i: nat, j: nat)
    requires i < j < |s|
    ensures multiset(Swap(s, i, j)) == multiset(s)
  {
    var t := Swap(s, i, j);
    assert s == s[..i] + [s[i]] + s[i + 1..j] + [s[j]] + s[j + 1..];
    assert t == s[..i] + [s[j]] + s[i + 1..j] + [s[i]] + s[j + 1..];
  }

  lemma StartInsert(s: seq<string>, i: nat)
    requires i < |s| && AscendingPrefix(s, i)
    ensures AscendingExcept(s, i, i) && Bridged(s, i, i)
  {
  }

  /** Exchanging the inserted name with a larger name before it moves the
      gap one place left. */
  lemma SwapStep(s: seq<string>, i: nat, j: nat)
    requires 0 < j <= i < |s|
    requires AscendingExcept(s, i, j) && Bridged(s, i, j) && !LexLe(s[j - 1], s[j])
    ensures AscendingExcept(Swap(s, j - 1, j), i, j - 1) && Bridged(Swap(s, j - 1, j), i, j - 1)
    ensures multiset(Swap(s, j - 1, j)) == multiset(s)
  {
    LexLeFlip(s[j - 1], s[j]);
    var t := Swap(s, j - 1, j);
    forall k | 0 < k <= i && k < |t| && k != j - 1
      ensures LexLe(t[k - 1], t[k])
    {
      if k == j + 1 {
        assert t[k - 1] == s[j - 1] && t[k] == s[j + 1];
      } else if k != j {
        assert t[k - 1] == s[k - 1] && t[k] == s[k];
      }
    }
    if 0 < j - 1 {
      assert t[j - 2] == s[j - 2] && t[j] == s[j - 1];
    }
  }

  /** The insertion stops at the front or below a name at most as large;
      either way the prefix is ascending again. */
  lemma FinishInsert(s: seq<string>, i: nat, j: nat)
    requires j <= i < |s| && AscendingExcept(s, i, j)
    requires j == 0 || LexLe(s[j - 1], s[j])
    ensures AscendingPrefix(s, i + 1)
  {
  }

  lemma {:induction false} LexLeFlip(a: string, b: string)
    requires !LexLe(a, b)
    ensures LexLe(b, a)
  {
    LexLeTotal(a, b);
  }

  /** `s` with the names at `i` and `j` exchanged. */
  function Swap(s: seq<string>, i: nat, j: nat): (r: seq<string>)
    requires i < |s| && j < |s|
    ensures |r| == |s| && r[i] == s[j] && r[j] == s[i]
    ensures forall k :: 0 <= k < |s| && k != i && k != j ==> r[k] == s[k]
  {
    s[i := s[j]][j := s[i]]
  }

  /** Sorting leaves no choice: two ascending lists of the same names are
      the same list, so the merge order depends only on the names found. */
  lemma {:induction false} SortedUnique(a: seq<string>, b: seq<string>)
    requires Sorted(a) && Sorted(b) && multiset(a) == multiset(b)
    ensures a == b
  {
    if a != [] {
      SortedSameFirst(a, b);
      SameTail(a, b);
      SortedTail(a);
      SortedTail(b);
      SortedUnique(a[1..], b[1..]);
      assert a == [a[0]] + a[1..] && b == [b[0]] + b[1..];
    }
  }

  /** Two ascending lists of the same names start with the same name. */
  lemma SortedSameFirst(a: seq<string>, b: seq<string>)
    requires Sorted(a) && Sorted(b) && multiset(a) == multiset(b) && a != []
    ensures b != [] && a[0] == b[0]
  {
    assert a[0] in multiset(b);
    assert b[0] in multiset(a);
    var i :| 0 <= i < |b| && b[i] == a[0];
    var j :| 0 <= j < |a| && a[j] == b[0];
    assert LexLe(b[0], a[0]) by {
      if i > 0 { assert LexLe(b[0], b[i]); } else { LexLeTotal(b[0], b[0]); }
    }
    assert LexLe(a[0], b[0]) by {
      if j > 0 { assert LexLe(a[0], a[j]); } else { LexLeTotal(a[0], a[0]); }
    }
    LexLeAntisymmetric(a[0], b[0]);
  }

  /** Removing the same first name from two lists of the same names leaves
      lists of the same names. */
  lemma SameTail(a: seq<string>, b: seq<string>)
    requires a != [] && b != [] && a[0] == b[0] && multiset(a) == multiset(b)
    ensures multiset(a[1..]) == multiset(b[1..])
  {
    assert a == [a[0]] + a[1..] && b == [b[0]] + b[1..];
    assert multiset(a[1..]) == multiset(a) - multiset([a[0]]);
    assert multiset(b[1..]) == multiset(b) - multiset([b[0]]);
  }

  /** The check of one `.md` name against every refused character. */
  method CheckFileName(file: string) returns (warns: seq<Warning>)
    ensures warns == CharWarnings(InvalidChars, file)
  {
    warns := [];
    for c := 0 to |InvalidChars|
      invariant warns == CharWarnings(InvalidChars[..c], file)
    {
      assert InvalidChars[..c + 1][..c] == InvalidChars[..c];
      if InvalidChars[c] in file {
        warns := warns + [SuspiciousFileName(InvalidChars[c], file)];
      }
    }
    assert InvalidChars[..|InvalidChars|] == InvalidChars;
  }

  /** The inner loop of `collect_markdown_files`, over the names of one
      directory of the walk. */
  method CollectIn(v: Variant, h: Host, root: string, files: seq<string>)
    returns (found: seq<string>, warns: seq<Warning>)
    ensures found == FoundIn(h, root, files)
    ensures warns == NameWarningsIn(v, files)
  {
    found, warns := [], [];
    for k := 0 to |files|
      invariant found == FoundIn(h, root, files[..k])
      invariant warns == NameWarningsIn(v, files[..k])
    {
      assert files[..k + 1][..k] == files[..k];
      var file := files[k];
      if HasSuffix(file, ".md") {
        if v.ChecksFileNames() {
          var w := CheckFileName(file);
          warns := warns + w;
        }
        found := found + [Join(h, root, file)];
      }
    }
    assert files[..|files|] == files;
  }

  /** `collect_markdown_files(directory)` over the walk of `directory`:
      the `.md` paths, sorted, and the name warnings printed on the way. */
  method CollectMarkdownFiles(v: Variant, h: Host, walk: seq<WalkStep>)
    returns (mdFiles: seq<string>, log: seq<Warning>)
    ensures Sorted(mdFiles)
    ensures multiset(mdFiles) == multiset(Found(h, walk))
    ensures forall p :: p in mdFiles ==> HasSuffix(p, ".md")
    ensures ValidWalk(h, walk) ==> Distinct(mdFiles)
    ensures log == NameWarnings(v, walk)
  {
    mdFiles, log := [], [];
    for s := 0 to |walk|
      invariant mdFiles == Found(h, walk[..s])
      invariant log == NameWarnings(v, walk[..s])
    {
      assert walk[..s + 1][..s] == walk[..s];
      var found, warns := CollectIn(v, h, walk[s].root, walk[s].files);
      mdFiles := mdFiles + found;
      log := log + warns;
    }
    assert walk[..|walk|] == walk;
    FoundAllMarkdown(h, walk);
    ghost var unsorted := mdFiles;
    mdFiles := Sort(mdFiles);
    assert forall p :: p in mdFiles ==> p in multiset(unsorted);
    if ValidWalk(h, walk) {
      FoundDistinct(h, walk);
      DistinctPermutation(unsorted, mdFiles);
    }
  }
}
