/** `merge_markdown_files(md_files)`: for each file, in list order, the
    file is read, its image references are rewritten, and one block
    `\n\n---\n\n# <header>\n\n<body>\n` is appended, whose header is the
    path relative to the documentation root. */
module Merge {
  import opened Common
  import opened Text
  import opened Paths
  import opened ImagePaths

  /** The section header of a file: the raw relative path for Word; for
      PDF, backslashes become `/` and every `_` is escaped as `\_` for LaTeX. */
  function Header(v: Variant, rel: string): string
  {
    if v.IsPdf() then EscapeUnderscores(ReplaceChar(rel, '\\', '/')) else rel
  }

  /** In a PDF header every `_` is written `\_`: a backslash occurs only
      before an underscore and every underscore follows one, and
      un-escaping gives back the slash-normalised relative path; a Word
      header is the relative path itself. */
  lemma HeaderEscaped(v: Variant, rel: string)
    ensures v.IsPdf() ==> forall i :: 0 <= i < |Header(v, rel)| && Header(v, rel)[i] == '\\' ==>
              i + 1 < |Header(v, rel)| && Header(v, rel)[i + 1] == '_'
    ensures v.IsPdf() ==> Header(v, rel) == [] || Header(v, rel)[0] != '_'
    ensures v.IsPdf() ==> forall i :: 0 < i < |Header(v, rel)| && Header(v, rel)[i] == '_' ==>
              Header(v, rel)[i - 1] == '\\'
    ensures v.IsPdf() ==> UnescapeUnderscores(Header(v, rel)) == ReplaceChar(rel, '\\', '/')
    ensures !v.IsPdf() ==> Header(v, rel) == rel
  {
    if v.IsPdf() {
      ReplaceCharRemoves(rel, '\\', '/');
      UnescapeEscape(ReplaceChar(rel, '\\', '/'));
    }
  }

  /** One file's contribution to the merged text. */
  function Block(header: string, body: string): string
  {
    "\n\n---\n\n# " + header + "\n\n" + body + "\n"
  }

  /** The text of one file after its image references are rewritten
      against the file's own directory. */
  function FixedText(v: Variant, e: Env, path: string, content: string): string
    requires e.Valid()
  {
    JoinWith('\n', FixLines(v, e, Dirname(e.host, path), SplitLines(content)))
  }

  /** The warnings `fix_image_paths(content, md_file)` prints. */
  function FixLog(e: Env, existing: set<string>, path: string, content: string): seq<Warning>
    requires e.Valid()
  {
    Warnings(e, existing, Dirname(e.host, path), SplitLines(content))
  }

  /** The block of one file, or the error that stops the merge there:
      `open` fails first, then `os.path.relpath`. */
  function FileBlock(v: Variant, e: Env, fs: map<string, string>, docsDir: string, path: string): Result<string>
    requires e.Valid()
  {
    if path !in fs then Err(Unreadable(path))
    else match Relpath(e.host, e.cwd, path, docsDir)
      case None => Err(NoRelativePath(path))
      case Some(rel) => Ok(Block(Header(v, rel), FixedText(v, e, path, fs[path])))
  }

  /** The blocks of `files`, in list order. */
  function Blocks(v: Variant, e: Env, fs: map<string, string>, docsDir: string, files: seq<string>): (r: seq<Result<string>>)
    requires e.Valid()
    ensures |r| == |files|
  {
    seq(|files|, i requires 0 <= i < |files| => FileBlock(v, e, fs, docsDir, files[i]))
  }

  /** The warnings of each file of `files`; a file that cannot be opened
      prints none. */
  function FileLogs(e: Env, existing: set<string>, fs: map<string, string>, files: seq<string>): (r: seq<seq<Warning>>)
    requires e.Valid()
    ensures |r| == |files|
  {
    seq(|files|, i requires 0 <= i < |files| => if files[i] in fs then FixLog(e, existing, files[i], fs[files[i]]) else [])
  }

  /** The blocks appended one after the other, or the first error. */
  function Concat(blocks: seq<Result<string>>): Result<string>
  {
    if blocks == [] then Ok("")
    else
      var prev := Concat(blocks[..|blocks| - 1]);
      var last := blocks[|blocks| - 1];
      if prev.Err? then prev
      else if last.Err? then Err(last.error)
      else Ok(prev.value + last.value)
  }

  /** The warnings of every file up to and including the first that fails. */
  function StopLog(blocks: seq<Result<string>>, logs: seq<seq<Warning>>): seq<Warning>
    requires |blocks| == |logs|
  {
    if blocks == [] then []
    else
      var n := |blocks| - 1;
      StopLog(blocks[..n], logs[..n]) + (if Concat(blocks[..n]).Ok? then logs[n] else [])
  }

  /** The merged text of `files`, or the first error. */
  function Merged(v: Variant, e: Env, fs: map<string, string>, docsDir: string, files: seq<string>): Result<string>
    requires e.Valid()
  {
    Concat(Blocks(v, e, fs, docsDir, files))
  }

  /** The warnings printed while merging. */
  function MergeLog(v: Variant, e: Env, existing: set<string>, fs: map<string, string>, docsDir: string, files: seq<string>): seq<Warning>
    requires e.Valid()
  {
    StopLog(Blocks(v, e, fs, docsDir, files), FileLogs(e, existing, fs, files))
  }

  /** The concatenation succeeds exactly when every block does. */
  lemma {:induction false} ConcatOkIff(blocks: seq<Result<string>>)
    ensures Concat(blocks).Ok? <==> forall k :: 0 <= k < |blocks| ==> blocks[k].Ok?
  {
    if blocks != [] {
      ConcatOkIff(blocks[..|blocks| - 1]);
    }
  }

  /** The concatenation of `a + b` is that of `a` followed by that of `b`. */
  lemma {:induction false} ConcatAppend(a: seq<Result<string>>, b: seq<Result<string>>)
    requires Concat(a).Ok? && Concat(b).Ok?
    ensures Concat(a + b) == Ok(Concat(a).value + Concat(b).value)
  {
    if b == [] {
      assert a + b == a;
      assert Concat(a).value + "" == Concat(a).value;
    } else {
      var b' := b[..|b| - 1];
      assert (a + b)[..|a + b| - 1] == a + b';
      assert (a + b)[|a + b| - 1] == b[|b| - 1];
      assert Concat(b').Ok?;
      ConcatAppend(a, b');
      var x, y, z := Concat(a).value, Concat(b').value, b[|b| - 1].value;
      assert (x + y) + z == x + (y + z);
    }
  }

  /** One more block: the text grows by the block, or the block's error
      ends the concatenation, and the block's warnings are printed either way
      when the prefix has not failed. */
  lemma ConcatStep(blocks: seq<Result<string>>, logs: seq<seq<Warning>>, i: nat)
    requires |blocks| == |logs| && i < |blocks| && Concat(blocks[..i]).Ok?
    ensures Concat(blocks[..i + 1]) ==
              if blocks[i].Err? then Err(blocks[i].error) else Ok(Concat(blocks[..i]).value + blocks[i].value)
    ensures StopLog(blocks[..i + 1], logs[..i + 1]) == StopLog(blocks[..i], logs[..i]) + logs[i]
  {
    assert blocks[..i + 1][..i] == blocks[..i];
    assert logs[..i + 1][..i] == logs[..i];
  }

  /** Once a prefix has failed, the whole fails with the same error and
      prints no further warning. */
  lemma {:induction false} ConcatPrefixErr(blocks: seq<Result<string>>, logs: seq<seq<Warning>>, n: nat)
    requires |blocks| == |logs| && n <= |blocks| && Concat(blocks[..n]).Err?
    ensures Concat(blocks) == Concat(blocks[..n])
    ensures StopLog(blocks, logs) == StopLog(blocks[..n], logs[..n])
    decreases |blocks| - n
  {
    if n < |blocks| {
      assert blocks[..n + 1][..n] == blocks[..n];
      assert logs[..n + 1][..n] == logs[..n];
      ConcatPrefixErr(blocks, logs, n + 1);
    } else {
      assert blocks[..n] == blocks && logs[..n] == logs;
    }
  }

  /** A failed concatenation reports the error of its first failing block. */
  lemma {:induction false} ConcatFirstErr(blocks: seq<Result<string>>) returns (k: nat)
    requires Concat(blocks).Err?
    ensures k < |blocks| && blocks[k] == Concat(blocks)
    ensures forall j :: 0 <= j < k ==> blocks[j].Ok?
  {
    var n := |blocks| - 1;
    if Concat(blocks[..n]).Err? {
      k := ConcatFirstErr(blocks[..n]);
    } else {
      ConcatOkIff(blocks[..n]);
      k := n;
    }
  }

  /** A failed merge stops at its first file that cannot be opened or has
      no relative path, and reports that file. */
  lemma MergedFirstErr(v: Variant, e: Env, fs: map<string, string>, docsDir: string, files: seq<string>) returns (k: nat)
    requires e.Valid()
    requires Merged(v, e, fs, docsDir, files).Err?
    ensures k < |files|
    ensures Merged(v, e, fs, docsDir, files) ==
              if files[k] !in fs then Err(Unreadable(files[k])) else Err(NoRelativePath(files[k]))
    ensures files[k] !in fs || Relpath(e.host, e.cwd, files[k], docsDir).None?
    ensures forall j :: 0 <= j < k ==> files[j] in fs && Relpath(e.host, e.cwd, files[j], docsDir).Some?
  {
    var bs := Blocks(v, e, fs, docsDir, files);
    k := ConcatFirstErr(bs);
    FileBlockOk(v, e, fs, docsDir, files[k]);
    forall j | 0 <= j < k
      ensures files[j] in fs && Relpath(e.host, e.cwd, files[j], docsDir).Some?
    {
      assert bs[j].Ok? && bs[j] == FileBlock(v, e, fs, docsDir, files[j]);
      FileBlockOk(v, e, fs, docsDir, files[j]);
    }
  }

  /** The merge succeeds exactly when every file can be read and has a path
      relative to the documentation root. */
  lemma MergedOkIff(v: Variant, e: Env, fs: map<string, string>, docsDir: string, files: seq<string>)
    requires e.Valid()
    ensures Merged(v, e, fs, docsDir, files).Ok? <==>
              forall k :: 0 <= k < |files| ==> files[k] in fs && Relpath(e.host, e.cwd, files[k], docsDir).Some?
  {
    var bs := Blocks(v, e, fs, docsDir, files);
    ConcatOkIff(bs);
    forall k | 0 <= k < |files|
      ensures bs[k].Ok? <==> files[k] in fs && Relpath(e.host, e.cwd, files[k], docsDir).Some?
    {
      FileBlockOk(v, e, fs, docsDir, files[k]);
    }
  }

  /** One file contributes a block exactly when it can be read and has a
      relative path. */
  lemma FileBlockOk(v: Variant, e: Env, fs: map<string, string>, docsDir: string, path: string)
    requires e.Valid()
    ensures FileBlock(v, e, fs, docsDir, path).Ok? <==> path in fs && Relpath(e.host, e.cwd, path, docsDir).Some?
  {
  }

  /** A readable file found below the documentation root, at
      `os.path.join(docsDir, sub)`, always has a relative path: its block
      carries as header the names of `sub` joined with the host's
      separator. */
  lemma FileBlockBelowRoot(v: Variant, e: Env, fs: map<string, string>, docsDir: string, sub: string)
    requires e.Valid() && IsRelativeNames(e.host, sub) && Join(e.host, docsDir, sub) in fs
    ensures var path := Join(e.host, docsDir, sub);
            FileBlock(v, e, fs, docsDir, path)
            == Ok(Block(Header(v, JoinWith(Sep(e.host), Segments(e.host, sub))), FixedText(v, e, path, fs[path])))
  {
    RelpathOfJoin(e.host, e.cwd, docsDir, sub);
  }

  /** The image references of a file `os.path.join(dir, name)` are
      resolved against `dir` without its trailing separators, which is
      `dir` itself when it has none; `/` and `D:/` are kept whole. */
  lemma FixedTextBase(v: Variant, e: Env, existing: set<string>, dir: string, name: string, content: string)
    requires e.Valid() && IsFileName(e.host, name)
    ensures FixedText(v, e, Join(e.host, dir, name), content)
            == JoinWith('\n', FixLines(v, e, Trimmed(e.host, dir), SplitLines(content)))
    ensures FixLog(e, existing, Join(e.host, dir, name), content)
            == Warnings(e, existing, Trimmed(e.host, dir), SplitLines(content))
    ensures NoTrailingSep(e.host, dir) ==>
              FixedText(v, e, Join(e.host, dir, name), content) == JoinWith('\n', FixLines(v, e, dir, SplitLines(content)))
              && FixLog(e, existing, Join(e.host, dir, name), content) == Warnings(e, existing, dir, SplitLines(content))
  {
    DirnameOfJoin(e.host, dir, name);
  }

  /** Merging is a concatenation in list order: the merge of `a + b` is the
      merge of `a` followed by the merge of `b`. */
  lemma MergedAppend(v: Variant, e: Env, fs: map<string, string>, docsDir: string, a: seq<string>, b: seq<string>)
    requires e.Valid()
    requires Merged(v, e, fs, docsDir, a).Ok? && Merged(v, e, fs, docsDir, b).Ok?
    ensures Merged(v, e, fs, docsDir, a + b)
            == Ok(Merged(v, e, fs, docsDir, a).value + Merged(v, e, fs, docsDir, b).value)
  {
    var ba, bb, bab := Blocks(v, e, fs, docsDir, a), Blocks(v, e, fs, docsDir, b), Blocks(v, e, fs, docsDir, a + b);
    forall i | 0 <= i < |a + b| ensures bab[i] == (ba + bb)[i] {
      if i < |a| {
        assert (a + b)[i] == a[i];
      } else {
        assert (a + b)[i] == b[i - |a|];
      }
    }
    assert bab == ba + bb;
    ConcatAppend(Blocks(v, e, fs, docsDir, a), Blocks(v, e, fs, docsDir, b));
  }

  /** A single readable file merges to exactly its block. */
  lemma MergedSingle(v: Variant, e: Env, fs: map<string, string>, docsDir: string, f: string)
    requires e.Valid()
    requires FileBlock(v, e, fs, docsDir, f).Ok?
    ensures Merged(v, e, fs, docsDir, [f]) == Ok(FileBlock(v, e, fs, docsDir, f).value)
  {
    var bs := Blocks(v, e, fs, docsDir, [f]);
    assert bs[..0] == [];
    assert Concat(bs[..0]) == Ok("");
    assert "" + bs[0].value == bs[0].value;
  }

  /** One pass of the loop of `merge_markdown_files`: the file is opened,
      its image references are rewritten, its relative path is taken and its
      block is built. Returns the block, or the error that stops the merge,
      and the warnings printed. */
  method MergeOne(v: Variant, e: Env, existing: set<string>, fs: map<string, string>, docsDir: string, mdFile: string)
    returns (block: Result<string>, warns: seq<Warning>)
    requires e.Valid()
    ensures block == FileBlock(v, e, fs, docsDir, mdFile)
    ensures warns == (if mdFile in fs then FixLog(e, existing, mdFile, fs[mdFile]) else [])
  {
    if mdFile !in fs {
      return Err(Unreadable(mdFile)), [];
    }
    var content := fs[mdFile];
    var fixedContent;
    fixedContent, warns := FixImagePaths(v, e, existing, content, mdFile);
    var relPath := Relpath(e.host, e.cwd, mdFile, docsDir);
    if relPath.None? {
      return Err(NoRelativePath(mdFile)), warns;
    }
    var header := relPath.value;
    if v.IsPdf() {
      header := ReplaceChar(header, '\\', '/');
      header := EscapeUnderscores(header);
    }
    block := Ok(Block(header, fixedContent));
  }

  /** `merge_markdown_files(md_files)` with the file contents `fs` (a name
      that is not a key cannot be opened). Returns the merged text or the
      error that stopped it, and the warnings printed until then. */
  method MergeMarkdownFiles(v: Variant, e: Env, existing: set<string>, fs: map<string, string>, docsDir: string, mdFiles: seq<string>)
    returns (merged: Result<string>, log: seq<Warning>)
    requires e.Valid()
    ensures merged == Merged(v, e, fs, docsDir, mdFiles)
    ensures log == MergeLog(v, e, existing, fs, docsDir, mdFiles)
  {
    ghost var blocks := Blocks(v, e, fs, docsDir, mdFiles);
    ghost var logs := FileLogs(e, existing, fs, mdFiles);
    var mergedText := "";
    log := [];
    for i := 0 to |mdFiles|
      invariant Concat(blocks[..i]) == Ok(mergedText)
      invariant log == StopLog(blocks[..i], logs[..i])
    {
      var block, warns := MergeOne(v, e, existing, fs, docsDir, mdFiles[i]);
      assert block == blocks[i] && warns == logs[i];
      ConcatStep(blocks, logs, i);
      log := log + warns;
      if block.Err? {
        merged := Err(block.error);
        ConcatPrefixErr(blocks, logs, i + 1);
        return;
      }
      mergedText := mergedText + block.value;
    }
    assert blocks[..|mdFiles|] == blocks;
    assert logs[..|mdFiles|] == logs;
    merged := Ok(mergedText);
  }
}
