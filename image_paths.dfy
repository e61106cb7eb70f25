/** `fix_image_paths`: the line-by-line rewriter of Markdown image
    references, one definition for the three variants. A line is rewritten
    when it contains both `![` and `](` (in any order) and a `)` follows the
    first `](`. The target between them, stripped, is remote when it starts
    with `http://` or `https://` in any letter case; otherwise it is resolved
    against the directory of the Markdown file itself. */
module ImagePaths {
  import opened Common
  import opened Text
  import opened Paths

  /** The host conventions and the current directory `os.path` works with. */
  datatype Env = Env(host: Host, cwd: AbsPath) {
    predicate Valid() { ValidAbs(host, cwd) }
  }

  /** Non-raw literals in md_to_pdf.py: `\t` is a TAB character, so the
      annotation reads `0.9<TAB>extwidth` and `0.8<TAB>extheight`. */
  const MaxImageWidth: string := "0.9\textwidth"
  const MaxImageHeight: string := "0.8\textheight"

  /** The size annotation md_to_pdf.py appends after an image reference. */
  const SizeAnnotation: string :=
    "{width=" + MaxImageWidth + ", height=" + MaxImageHeight + ", keepaspectratio}"

  /** The positions of the first `](` and of the first `)` after it. */
  datatype Ref = Ref(start: nat, end: nat)

  /** The reference a line holds, if the rewriter fires on it. */
  function FindRef(line: string): (r: Option<Ref>)
    ensures r.Some? ==> Contains(line, "![") && Contains(line, "](")
    ensures r.Some? ==> r.value.start + 2 <= r.value.end < |line|
    ensures r.Some? ==> OccursAt(line, "](", r.value.start)
    ensures r.Some? ==> forall i :: 0 <= i < r.value.start ==> !OccursAt(line, "](", i)
    ensures r.Some? ==> line[r.value.end] == ')'
    ensures r.Some? ==> forall i :: r.value.start <= i < r.value.end ==> line[i] != ')'
    ensures r.None? ==> !Contains(line, "![") || !Contains(line, "](")
                        || forall i :: Find(line, "](", 0) <= i < |line| ==> line[i] != ')'
  {
    if !(Contains(line, "![") && Contains(line, "](")) then None
    else
      var start := Find(line, "](", 0);
      var end := Find(line, ")", start);
      FindChar(line, ')', start);
      OccursAtPair(line, "](", start);
      if end != -1 then Some(Ref(start, end)) else None
  }

  /** A target on the web: it starts with `http://` or `https://` in any
      letter case, and is then left as it is. */
  predicate IsRemote(target: string)
  {
    LowerStartsWith(target, "http://") || LowerStartsWith(target, "https://")
  }

  /** Where a local target points: the target taken relative to the
      directory of the Markdown file, as an absolute normalised path. */
  function AbsTarget(e: Env, dir: string, target: string): string
    requires e.Valid()
  {
    Render(e.host, Abspath(e.host, e.cwd, Join(e.host, dir, target)))
  }

  /** The separator convention of each variant: forward slashes for PDF,
      backslashes for Word. */
  function ForVariant(v: Variant, path: string): (r: string)
    ensures v.IsPdf() ==> '\\' !in r
    ensures !v.IsPdf() ==> '/' !in r
    ensures |r| == |path|
  {
    if v.IsPdf() then ReplaceChar(path, '\\', '/') else ReplaceChar(path, '/', '\\')
  }

  /** Inserts the size annotation at `at` in the annotating variant, unless
      the text already has a `{`. */
  function Annotate(v: Variant, s: string, at: nat): string
  {
    if v.Annotates() && !Contains(s, "{") then InsertAt(s, at, SizeAnnotation) else s
  }

  /** The target text of a reference: `line[start + 2:end].strip()`. */
  function Target(line: string, ref: Ref): string
    requires ref.start + 2 <= ref.end <= |line|
  {
    Strip(line[ref.start + 2..ref.end])
  }

  /** The resolved local path in the variant's separator convention. */
  function Resolved(v: Variant, e: Env, dir: string, target: string): (r: string)
    requires e.Valid()
    ensures v.IsPdf() ==> '\\' !in r
    ensures !v.IsPdf() ==> '/' !in r
  {
    ForVariant(v, AbsTarget(e, dir, target))
  }

  /** The line with its target, between the `](` and the `)`, replaced by
      the resolved path; everything else is kept. */
  function Splice(line: string, ref: Ref, resolved: string): string
    requires ref.start + 2 <= ref.end <= |line|
  {
    line[..ref.start + 2] + resolved + line[ref.end..]
  }

  /** The rewrite of one line in a Markdown file whose directory is `dir`. */
  function FixLine(v: Variant, e: Env, dir: string, line: string): string
    requires e.Valid()
  {
    match FindRef(line)
    case None => line
    case Some(ref) =>
      if IsRemote(Target(line, ref)) then Annotate(v, line, ref.end + 1)
      else Annotate(v, Splice(line, ref, Resolved(v, e, dir, Target(line, ref))), ref.end + 1)
  }

  /** The warning one line produces: a local target that does not exist. */
  function LineWarnings(e: Env, existing: set<string>, dir: string, line: string): seq<Warning>
    requires e.Valid()
  {
    match FindRef(line)
    case None => []
    case Some(ref) =>
      var target := Target(line, ref);
      if IsRemote(target) || AbsTarget(e, dir, target) in existing then []
      else [MissingImage(AbsTarget(e, dir, target))]
  }

  /** The rewrite of every line, in order. */
  function FixLines(v: Variant, e: Env, dir: string, lines: seq<string>): (r: seq<string>)
    requires e.Valid()
    ensures |r| == |lines|
  {
    if lines == [] then []
    else FixLines(v, e, dir, lines[..|lines| - 1]) + [FixLine(v, e, dir, lines[|lines| - 1])]
  }

  /** Line `k` of the output is the rewrite of line `k` of the input. */
  lemma {:induction false} FixLinesAt(v: Variant, e: Env, dir: string, lines: seq<string>, k: nat)
    requires e.Valid()
    requires k < |lines|
    ensures FixLines(v, e, dir, lines)[k] == FixLine(v, e, dir, lines[k])
  {
    if k < |lines| - 1 {
      FixLinesAt(v, e, dir, lines[..|lines| - 1], k);
    }
  }

  /** The warnings of a sequence of lines, in line order. */
  function Warnings(e: Env, existing: set<string>, dir: string, lines: seq<string>): seq<Warning>
    requires e.Valid()
  {
    if lines == [] then []
    else Warnings(e, existing, dir, lines[..|lines| - 1]) + LineWarnings(e, existing, dir, lines[|lines| - 1])
  }

  /** One more line: its rewrite and its warnings are appended. */
  lemma FixLinesSnoc(v: Variant, e: Env, existing: set<string>, dir: string, lines: seq<string>, i: nat)
    requires e.Valid()
    requires i < |lines|
    ensures FixLines(v, e, dir, lines[..i + 1]) == FixLines(v, e, dir, lines[..i]) + [FixLine(v, e, dir, lines[i])]
    ensures Warnings(e, existing, dir, lines[..i + 1]) == Warnings(e, existing, dir, lines[..i]) + LineWarnings(e, existing, dir, lines[i])
  {
    assert lines[..i + 1][..i] == lines[..i];
  }

  /** One pass of the loop of `fix_image_paths`: the rewritten line and the
      warning printed for it. */
  method FixOneLine(v: Variant, e: Env, existing: set<string>, currentDir: string, line: string)
    returns (fixedLine: string, warns: seq<Warning>)
    requires e.Valid()
    ensures fixedLine == FixLine(v, e, currentDir, line)
    ensures warns == LineWarnings(e, existing, currentDir, line)
  {
    warns := [];
    if Contains(line, "![") && Contains(line, "](") {
      var start := Find(line, "](", 0);
      var end := Find(line, ")", start);
      if start != -1 && end != -1 {
        var ref := Ref(start, end);
        assert FindRef(line) == Some(ref);
        var imgRelPath := Strip(line[start + 2..end]);
        if IsRemote(imgRelPath) {
          fixedLine := FixRemoteRef(v, e, currentDir, line, ref);
          return;
        }
        fixedLine, warns := FixLocalRef(v, e, existing, currentDir, line, ref);
        return;
      }
    }
    assert FindRef(line) == None;
    fixedLine := line;
  }

  /** The remote branch of one pass: the line is kept, with the size
      annotation inserted in the annotating variant. */
  method FixRemoteRef(v: Variant, e: Env, currentDir: string, line: string, ref: Ref) returns (fixedLine: string)
    requires e.Valid()
    requires FindRef(line) == Some(ref)
    requires IsRemote(Target(line, ref))
    ensures fixedLine == FixLine(v, e, currentDir, line)
  {
    FixLineRemote(v, e, {}, currentDir, line, ref);
    fixedLine := line;
    if v.Annotates() && !Contains(line, "{") {
      fixedLine := InsertAt(line, ref.end + 1, SizeAnnotation);
    }
  }

  /** The local branch of one pass: the target is made absolute, a
      warning is printed when it does not exist, the separators are
      converted, the path is spliced in and the size annotation inserted. */
  method FixLocalRef(v: Variant, e: Env, existing: set<string>, currentDir: string, line: string, ref: Ref)
    returns (fixedLine: string, warns: seq<Warning>)
    requires e.Valid()
    requires FindRef(line) == Some(ref)
    requires !IsRemote(Target(line, ref))
    ensures fixedLine == FixLine(v, e, currentDir, line)
    ensures warns == LineWarnings(e, existing, currentDir, line)
  {
    var imgRelPath := Strip(line[ref.start + 2..ref.end]);
    var imgAbsPath := AbsTarget(e, currentDir, imgRelPath);
    warns := [];
    if imgAbsPath !in existing {
      warns := [MissingImage(imgAbsPath)];
    }
    if v.IsPdf() {
      imgAbsPath := ReplaceChar(imgAbsPath, '\\', '/');
    } else {
      imgAbsPath := ReplaceChar(imgAbsPath, '/', '\\');
    }
    assert imgAbsPath == Resolved(v, e, currentDir, Target(line, ref));
    fixedLine := line[..ref.start + 2] + imgAbsPath + line[ref.end..];
    ghost var spliced := fixedLine;
    assert spliced == Splice(line, ref, Resolved(v, e, currentDir, Target(line, ref)));
    if v.Annotates() && !Contains(fixedLine, "{") {
      fixedLine := InsertAt(fixedLine, ref.end + 1, SizeAnnotation);
    }
    assert fixedLine == Annotate(v, spliced, ref.end + 1);
    FixLineLocal(v, e, existing, currentDir, line, ref);
  }

  /** `fix_image_paths(md_text, current_md_file_path)`: the text split into
      lines, each line rewritten, joined back with `\n`. Also returns the
      warnings printed on the way. */
  method FixImagePaths(v: Variant, e: Env, existing: set<string>, mdText: string, mdPath: string)
    returns (text: string, log: seq<Warning>)
    requires e.Valid()
    ensures text == JoinWith('\n', FixLines(v, e, Dirname(e.host, mdPath), SplitLines(mdText)))
    ensures log == Warnings(e, existing, Dirname(e.host, mdPath), SplitLines(mdText))
  {
    var lines := SplitLines(mdText);
    var fixedLines := [];
    var currentDir := Dirname(e.host, mdPath);
    log := [];
    for i := 0 to |lines|
      invariant fixedLines == FixLines(v, e, currentDir, lines[..i])
      invariant log == Warnings(e, existing, currentDir, lines[..i])
    {
      var fixedLine, warns := FixOneLine(v, e, existing, currentDir, lines[i]);
      FixLinesSnoc(v, e, existing, currentDir, lines, i);
      fixedLines := fixedLines + [fixedLine];
      log := log + warns;
    }
    assert lines[..|lines|] == lines;
    text := JoinWith('\n', fixedLines);
  }

  /** The output has one line per input line: splitting it again gives
      back exactly the rewritten lines, as long as none of them holds a line
      boundary and the last one is not empty. */
  lemma OneLinePerInputLine(v: Variant, e: Env, dir: string, mdText: string)
    requires e.Valid()
    requires var fixed := FixLines(v, e, dir, SplitLines(mdText));
             && (forall k :: 0 <= k < |fixed| ==> IsLine(fixed[k]))
             && (fixed != [] ==> fixed[|fixed| - 1] != "")
    ensures |SplitLines(JoinWith('\n', FixLines(v, e, dir, SplitLines(mdText))))| == |SplitLines(mdText)|
    ensures forall k :: 0 <= k < |SplitLines(mdText)| ==>
              SplitLines(JoinWith('\n', FixLines(v, e, dir, SplitLines(mdText))))[k] == FixLine(v, e, dir, SplitLines(mdText)[k])
  {
    var lines := SplitLines(mdText);
    SplitLinesJoin(FixLines(v, e, dir, lines));
    forall k | 0 <= k < |lines|
      ensures FixLines(v, e, dir, lines)[k] == FixLine(v, e, dir, lines[k])
    {
      FixLinesAt(v, e, dir, lines, k);
    }
  }

  /** A line without both `![` and `](` passes through untouched and
      produces no warning. */
  lemma UnreferencedLineUnchanged(v: Variant, e: Env, existing: set<string>, dir: string, line: string)
    requires e.Valid()
    requires !Contains(line, "![") || !Contains(line, "](")
    ensures FixLine(v, e, dir, line) == line
    ensures LineWarnings(e, existing, dir, line) == []
  {
  }

  /** A remote target is never rewritten: the line is kept through the
      closing `)`, and at most the size annotation follows it, only in the
      annotating variant and only when the line has no `{`. */
  lemma RemoteTargetKept(v: Variant, e: Env, existing: set<string>, dir: string, line: string, ref: Ref)
    requires e.Valid()
    requires FindRef(line) == Some(ref)
    requires IsRemote(Target(line, ref))
    ensures HasPrefix(FixLine(v, e, dir, line), line[..ref.end + 1])
    ensures !v.Annotates() || Contains(line, "{") ==> FixLine(v, e, dir, line) == line
    ensures v.Annotates() && !Contains(line, "{") ==>
              FixLine(v, e, dir, line) == line[..ref.end + 1] + SizeAnnotation + line[ref.end + 1..]
    ensures LineWarnings(e, existing, dir, line) == []
  {
    FixLineRemote(v, e, existing, dir, line, ref);
    AnnotateShape(v, line, ref.end + 1);
    AnnotateKeepsPrefix(v, line, ref.end + 1, ref.end + 1);
  }

  /** The splice keeps the text through the `](` and puts the `)` right
      after the resolved path. */
  lemma SpliceShape(line: string, ref: Ref, resolved: string)
    requires ref.start + 2 <= ref.end < |line|
    ensures Splice(line, ref, resolved)[..ref.start + 2] == line[..ref.start + 2]
    ensures Splice(line, ref, resolved)[ref.start + 2 + |resolved|] == line[ref.end]
  {
  }

  /** Where the annotation goes: nowhere when the variant does not annotate
      or the text has a `{`, otherwise at `at`, or at the end when `at` lies
      past it. */
  lemma AnnotateShape(v: Variant, s: string, at: nat)
    ensures !v.Annotates() || Contains(s, "{") ==> Annotate(v, s, at) == s
    ensures v.Annotates() && !Contains(s, "{") && at <= |s| ==> Annotate(v, s, at) == s[..at] + SizeAnnotation + s[at..]
    ensures v.Annotates() && !Contains(s, "{") && at > |s| ==> Annotate(v, s, at) == s + SizeAnnotation
  {
    if at > |s| {
      assert s[..|s|] == s && s[|s|..] == [];
    }
  }

  /** The annotation goes in at or after `at`, so the text before `at` is
      kept. */
  lemma AnnotateKeepsPrefix(v: Variant, s: string, at: nat, p: nat)
    requires p <= at && p <= |s|
    ensures HasPrefix(Annotate(v, s, at), s[..p])
  {
    if v.Annotates() && !Contains(s, "{") {
      assert InsertAt(s, at, SizeAnnotation)[..p] == s[..p];
    }
  }

  /** The local branch of the rewriter, unfolded. */
  lemma FixLineLocal(v: Variant, e: Env, existing: set<string>, dir: string, line: string, ref: Ref)
    requires e.Valid()
    requires FindRef(line) == Some(ref)
    requires !IsRemote(Target(line, ref))
    ensures FixLine(v, e, dir, line) == Annotate(v, Splice(line, ref, Resolved(v, e, dir, Target(line, ref))), ref.end + 1)
    ensures var abs := AbsTarget(e, dir, Target(line, ref));
            LineWarnings(e, existing, dir, line) == (if abs in existing then [] else [MissingImage(abs)])
  {
  }

  /** The remote branch of the rewriter, unfolded. */
  lemma FixLineRemote(v: Variant, e: Env, existing: set<string>, dir: string, line: string, ref: Ref)
    requires e.Valid()
    requires FindRef(line) == Some(ref)
    requires IsRemote(Target(line, ref))
    ensures FixLine(v, e, dir, line) == Annotate(v, line, ref.end + 1)
    ensures LineWarnings(e, existing, dir, line) == []
  {
  }

  /** A local target is resolved against the file's own directory and
      spliced in between the text through the first `](` and the text from
      the first `)` after it; PDF paths hold no backslash and Word paths no
      forward slash. A target that does not exist only adds a warning. */
  lemma LocalTargetRewritten(v: Variant, e: Env, existing: set<string>, dir: string, line: string, ref: Ref)
    requires e.Valid()
    requires FindRef(line) == Some(ref)
    requires !IsRemote(Target(line, ref))
    ensures var abs := AbsTarget(e, dir, Target(line, ref));
            var resolved := ForVariant(v, abs);
            && HasPrefix(FixLine(v, e, dir, line), line[..ref.start + 2])
            && (!v.Annotates() ==> FixLine(v, e, dir, line) == line[..ref.start + 2] + resolved + line[ref.end..])
            && (v.IsPdf() ==> '\\' !in resolved)
            && (!v.IsPdf() ==> '/' !in resolved)
            && LineWarnings(e, existing, dir, line) == (if abs in existing then [] else [MissingImage(abs)])
  {
    FixLineLocal(v, e, existing, dir, line, ref);
    var resolved := Resolved(v, e, dir, Target(line, ref));
    SpliceShape(line, ref, resolved);
    AnnotateKeepsPrefix(v, Splice(line, ref, resolved), ref.end + 1, ref.start + 2);
  }

  /** The annotation is added at most once: once a line carries it, it
      holds a `{`, so a second annotation pass leaves it alone. */
  lemma AnnotateIdempotent(v: Variant, s: string, at: nat, at2: nat)
    ensures Annotate(v, Annotate(v, s, at), at2) == Annotate(v, s, at)
  {
    if v.Annotates() && !Contains(s, "{") {
      var m := if at <= |s| then at else |s|;
      assert OccursAt(InsertAt(s, at, SizeAnnotation), "{", m) by {
        assert InsertAt(s, at, SizeAnnotation)[m..m + 1] == SizeAnnotation[..1] == "{";
      }
    }
  }

  /** md_to_pdf.py inserts the annotation at offset `end + 1` of the
      ORIGINAL line into the REWRITTEN line. The `)` of the rewritten line
      sits at `start + 2 + |resolved|`, so the annotation follows it only
      when the resolved path is exactly as long as the raw target text. */
  lemma AnnotationAtOriginalOffset(e: Env, dir: string, line: string, ref: Ref)
    requires e.Valid()
    requires FindRef(line) == Some(ref)
    requires !IsRemote(Target(line, ref))
    ensures var resolved := Resolved(PdfAnnotated, e, dir, Target(line, ref));
            var fixed := Splice(line, ref, resolved);
            && fixed[ref.start + 2 + |resolved|] == ')'
            && (!Contains(fixed, "{") && ref.end + 1 <= |fixed| ==>
                  FixLine(PdfAnnotated, e, dir, line) == fixed[..ref.end + 1] + SizeAnnotation + fixed[ref.end + 1..])
            && (!Contains(fixed, "{") && ref.end + 1 > |fixed| ==>
                  FixLine(PdfAnnotated, e, dir, line) == fixed + SizeAnnotation)
  {
    FixLineLocal(PdfAnnotated, e, {}, dir, line, ref);
    var resolved := Resolved(PdfAnnotated, e, dir, Target(line, ref));
    SpliceShape(line, ref, resolved);
    AnnotateShape(PdfAnnotated, Splice(line, ref, resolved), ref.end + 1);
  }
}
