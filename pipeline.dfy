/** `main()` of the four scripts: collect the `.md` files under the root,
    stop when there are none, merge them, and hand the merged text and the
    argument list to pandoc. The PDF scripts choose the engine after the
    merge; the Word scripts pass the root as the resource path. The pandoc
    call itself is not modelled: the outcome is what it would be given. */
module Pipeline {
  import opened Common
  import opened Paths
  import opened ImagePaths
  import opened Locator
  import opened Merge
  import opened Engine

  /** What is handed to pandoc: the merged Markdown and `extra_args`. */
  datatype Job = Job(text: string, args: seq<string>)

  /** Everything after the collection, for a non-empty file list: merge,
      then (PDF only) choose the engine, then build the argument list. */
  method BuildJob(v: Variant, e: Env, existing: set<string>, fs: map<string, string>, docsDir: string,
                  mdFiles: seq<string>, hasXelatex: bool, hasWkhtmltopdf: bool)
    returns (r: Result<Job>, log: seq<Warning>)
    requires e.Valid()
    ensures Merged(v, e, fs, docsDir, mdFiles).Err? ==> r == Err(Merged(v, e, fs, docsDir, mdFiles).error)
    ensures r.Ok? <==> Merged(v, e, fs, docsDir, mdFiles).Ok? && (!v.IsPdf() || hasXelatex || hasWkhtmltopdf)
    ensures r.Ok? ==> Merged(v, e, fs, docsDir, mdFiles) == Ok(r.value.text)
    ensures r.Ok? && !v.IsPdf() ==> r.value.args == DocxExtraArgs(docsDir)
    ensures r.Ok? && v.IsPdf() ==> DetectPdfEngine(hasXelatex, hasWkhtmltopdf).Ok?
                                   && |r.value.args| >= 6 && r.value.args[4..6] == ["--pdf-engine", EngineName(DetectPdfEngine(hasXelatex, hasWkhtmltopdf).value)]
    ensures r == Err(NoEngine) <==> Merged(v, e, fs, docsDir, mdFiles).Ok? && v.IsPdf() && !hasXelatex && !hasWkhtmltopdf
    ensures r != Err(NoMarkdownFiles)
    ensures log == MergeLog(v, e, existing, fs, docsDir, mdFiles)
  {
    var merged;
    merged, log := MergeMarkdownFiles(v, e, existing, fs, docsDir, mdFiles);
    if merged.Err? {
      var k := MergedFirstErr(v, e, fs, docsDir, mdFiles);
      return Err(merged.error), log;
    }
    if v.IsPdf() {
      var engine := DetectPdfEngine(hasXelatex, hasWkhtmltopdf);
      if engine.Err? {
        return Err(NoEngine), log;
      }
      var args := PdfExtraArgs(v, docsDir, engine.value);
      assert args[4..6] == HeadArgs(docsDir, engine.value)[4..6];
      r := Ok(Job(merged.value, args));
    } else {
      r := Ok(Job(merged.value, DocxExtraArgs(docsDir)));
    }
  }

  /** One run of a script over the walk of `docsDir`. Returns the pandoc
      job or the reason the run ends without output, the collected files in
      merge order, and every warning printed. */
  method RunScript(v: Variant, e: Env, walk: seq<WalkStep>, existing: set<string>, fs: map<string, string>,
                   docsDir: string, hasXelatex: bool, hasWkhtmltopdf: bool)
    returns (r: Result<Job>, mdFiles: seq<string>, log: seq<Warning>)
    requires e.Valid()
    ensures Sorted(mdFiles) && multiset(mdFiles) == multiset(Found(e.host, walk))
    ensures r == Err(NoMarkdownFiles) <==> Found(e.host, walk) == []
    ensures r.Ok? <==> mdFiles != [] && Merged(v, e, fs, docsDir, mdFiles).Ok? && (!v.IsPdf() || hasXelatex || hasWkhtmltopdf)
    ensures mdFiles != [] && Merged(v, e, fs, docsDir, mdFiles).Err? ==> r == Err(Merged(v, e, fs, docsDir, mdFiles).error)
    ensures r.Ok? ==> Merged(v, e, fs, docsDir, mdFiles) == Ok(r.value.text)
    ensures r.Ok? && !v.IsPdf() ==> r.value.args == DocxExtraArgs(docsDir)
    ensures r.Ok? && v.IsPdf() ==> DetectPdfEngine(hasXelatex, hasWkhtmltopdf).Ok?
                                   && |r.value.args| >= 6 && r.value.args[4..6] == ["--pdf-engine", EngineName(DetectPdfEngine(hasXelatex, hasWkhtmltopdf).value)]
    ensures r == Err(NoEngine) <==>
              mdFiles != [] && Merged(v, e, fs, docsDir, mdFiles).Ok? && v.IsPdf() && !hasXelatex && !hasWkhtmltopdf
    ensures ValidWalk(e.host, walk) && WalkBelow(e.host, docsDir, walk) ==>
              (r.Ok? <==> mdFiles != [] && (forall k :: 0 <= k < |mdFiles| ==> mdFiles[k] in fs)
                          && (!v.IsPdf() || hasXelatex || hasWkhtmltopdf))
    ensures log == NameWarnings(v, walk) + (if mdFiles == [] then [] else MergeLog(v, e, existing, fs, docsDir, mdFiles))
  {
    var nameLog;
    mdFiles, nameLog := CollectMarkdownFiles(v, e.host, walk);
    if mdFiles == [] {
      assert multiset(Found(e.host, walk)) == multiset{};
      return Err(NoMarkdownFiles), mdFiles, nameLog;
    }
    assert Found(e.host, walk) != [] by {
      assert mdFiles[0] in multiset(Found(e.host, walk));
    }
    var mergeLog;
    r, mergeLog := BuildJob(v, e, existing, fs, docsDir, mdFiles, hasXelatex, hasWkhtmltopdf);
    log := nameLog + mergeLog;
    if ValidWalk(e.host, walk) && WalkBelow(e.host, docsDir, walk) {
      WalkMergedOkIff(v, e, fs, docsDir, walk, mdFiles);
    }
  }

  /** For files collected from `os.walk(docsDir)` the merge never stops at
      `os.path.relpath`: it succeeds exactly when every file can be read. */
  lemma WalkMergedOkIff(v: Variant, e: Env, fs: map<string, string>, docsDir: string,
                        walk: seq<WalkStep>, files: seq<string>)
    requires e.Valid() && ValidWalk(e.host, walk) && WalkBelow(e.host, docsDir, walk)
    requires multiset(files) == multiset(Found(e.host, walk))
    ensures Merged(v, e, fs, docsDir, files).Ok? <==> forall k :: 0 <= k < |files| ==> files[k] in fs
  {
    MergedOkIff(v, e, fs, docsDir, files);
    forall k | 0 <= k < |files|
      ensures Relpath(e.host, e.cwd, files[k], docsDir).Some?
    {
      assert files[k] in multiset(Found(e.host, walk));
      FoundBelow(e.host, e.cwd, docsDir, walk, files[k]);
    }
  }
}
