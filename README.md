# Markdown knowledge-base aggregator, modelled in Dafny

The repository holds four scripts that turn a tree of Markdown files into
one document through pandoc:

- `md_to_pdf.py` and `to_pdf.py` produce a PDF.
- `md_to_docx.py` and `merge_md_to_docx.py` produce a Word file.

All four share one engine:

- `collect_markdown_files` walks the documentation root. It keeps every
  file whose name ends in `.md`, joined onto its directory, and sorts the
  list.
- `merge_markdown_files` reads each file in list order and passes its
  text through `fix_image_paths`. It then appends one block
  `\n\n---\n\n# <header>\n\n<body>\n`, whose header is the file's path
  relative to the root.
- `fix_image_paths` looks for a reference in each line that holds both
  `![` and `](` and has a `)` after the first `](`. Other lines are kept.
  - The target is the stripped text between the first `](` and the first
    `)` after it.
  - A target starting with `http://` or `https://`, in any letter case, is
    kept; only md_to_pdf.py adds a size annotation to its line.
  - Any other target is joined onto the directory of the Markdown file
    itself and made absolute. It is spliced back in, and a warning is
    printed when it does not exist.
- The PDF scripts choose an engine: xelatex, else wkhtmltopdf, else exit.
  They build pandoc's argument list, adding font variables only for
  xelatex.

The model is one engine parameterised by a `Variant`:

| variant | scripts | resolved path | header | size annotation |
|---|---|---|---|---|
| `Docx` | md_to_docx.py, merge_md_to_docx.py | `/` becomes `\` | raw relative path | none |
| `PdfPlain` | to_pdf.py | `\` becomes `/` | `\` becomes `/`, then `_` becomes `\_` | none |
| `PdfAnnotated` | md_to_pdf.py | as `PdfPlain` | as `PdfPlain` | `{width=…, height=…, keepaspectratio}`, only when the line has no `{` |

md_to_pdf.py also warns about `.md` names that hold one of `\/:*?"<>|`,
and keeps those names.

Modules, one per file:

- `Common` (common.dfy): results, errors, warnings and the variant.
- `Text` (text.dfy): the Python string operations the scripts use.
  - `find`, `in`, `strip`, `lower().startswith`.
  - One-character `replace`, the underscore escape.
  - Clamped slicing, `"\n".join`, `splitlines`.
- `Paths` (paths.dfy): `os.path` on a POSIX or a Windows host. A path is
  normalised as a drive plus a list of segments.
- `ImagePaths` (image_paths.dfy): `fix_image_paths`.
- `Locator` (locator.dfy): `collect_markdown_files`, including the
  in-place `list.sort()` as an insertion sort on an array.
- `Merge` (merge.dfy): `merge_markdown_files`.
- `Engine` (engine.dfy): `detect_pdf_engine` and the `extra_args` lists.
- `Pipeline` (pipeline.dfy): `main()`.

Each loop of the scripts is a method with a loop. Each method is proved
equal to a specification function: `FixLines`/`Warnings`,
`Found`/`NameWarnings`, `Merged`/`MergeLog`. The lemmas state what those
functions promise.

The annotation quirk of md_to_pdf.py is reproduced, not fixed. The
annotation goes in at offset `end + 1` of the original line, but into the
rewritten line. `AnnotationAtOriginalOffset` states where it lands.

The size literals of md_to_pdf.py are not raw strings. So `\t` in
`"0.9\textwidth"` is a TAB character, in both the annotation and the
`graphicxopts` variable.

## Model

| member | source | states |
|---|---|---|
| Text.Find | md_to_pdf.py:22-23 | `str.find` returns -1 exactly when the pattern occurs nowhere at or after `from`; otherwise it returns the first such index. |
| Text.ContainsIff | md_to_pdf.py:21 | `p in s` holds exactly when `p` occurs at some index of `s`. |
| Text.IsSpace | md_to_pdf.py:25 | The characters `str.isspace()` accepts, the whitespace `strip()` removes. |
| Text.StripStart | md_to_pdf.py:25 | `lstrip()`: never longer than its input. `StripStartSpec` states what it removes. |
| Text.StripEnd | md_to_pdf.py:25 | `rstrip()`: never longer than its input. `StripEndSpec` states what it removes. |
| Text.Contains | md_to_pdf.py:21 | The `in` test on texts, defined through `find`. `ContainsIff` states its meaning. |
| Text.StripSpec | md_to_pdf.py:25 | `strip()` returns the slice of the text between its leading and trailing whitespace. Everything removed is whitespace, and the result neither starts nor ends with whitespace. |
| Text.StripStartSpec | md_to_pdf.py:25 | `lstrip` removes exactly a run of leading whitespace. |
| Text.StripEndSpec | md_to_pdf.py:25 | `rstrip` removes exactly a run of trailing whitespace. |
| Text.Strip | md_to_pdf.py:25 | `strip()`: never longer than its input. `StripSpec` states what it removes. |
| Text.LowerStartsWithIff | md_to_pdf.py:27 | Testing the prefix one lowered character at a time is the same as `lower().startswith(p)`. |
| Text.LowerChar | md_to_pdf.py:27 | `str.lower()` on one character: `A`-`Z` become `a`-`z`, every other character is kept. |
| Text.Lower | md_to_pdf.py:27 | `str.lower()` character by character. `LowerStartsWithIff` ties it to the prefix test. |
| Text.ReplaceChar | md_to_pdf.py:40 | `replace(a, b)` keeps the length and changes exactly the characters equal to `a`. |
| Text.ReplaceCharRemoves | md_to_docx.py:39 | After `replace(a, b)` no `a` is left, and every other character is untouched. |
| Text.EscapeUnderscores | md_to_pdf.py:85 | `replace("_", r"\_")` on a text without backslashes writes each `_` as `\_`: every backslash of the result is directly followed by `_`, and every `_` directly follows a backslash. |
| Text.UnescapeEscape | md_to_pdf.py:85 | The escape loses nothing: turning every `\_` back into `_` gives the original header. |
| Text.InsertAt | md_to_pdf.py:30 | `s[:k] + a + s[k:]` with Python's clamping of `k` to the length. `AnnotateShape` and `AnnotationAtOriginalOffset` state where the annotation lands. |
| Text.JoinWith | md_to_pdf.py:49 | `sep.join(parts)`. `SplitLinesJoin` states that `splitlines` undoes it. |
| Text.SplitLines | md_to_pdf.py:16 | `splitlines()` returns pieces that hold no line boundary. |
| Text.LineEnd | md_to_pdf.py:16 | The end of the first line is the first boundary character, or the end of the text. |
| Text.IsLineBoundary | md_to_pdf.py:16 | The characters at which `splitlines()` ends a line: `\n`, `\r`, `\v`, `\f`, `\x1c`-`\x1e`, `\x85`, `\u2028`, `\u2029`. |
| Text.SplitLinesJoin | md_to_pdf.py:16-49 | `splitlines` undoes `"\n".join` when no line holds a boundary and the last line is not empty. |
| Paths.Normalize | md_to_pdf.py:35 | `abspath` normalisation yields only proper names and never lengthens the path. |
| Paths.Abspath | md_to_pdf.py:35 | `os.path.abspath` always yields a path made of proper names. |
| Paths.Segments | md_to_pdf.py:35 | The pieces of a path between separators are non-empty and hold no separator. |
| Paths.SplitDrive | md_to_pdf.py:35 | `os.path.splitdrive`: a two-character drive on Windows, none on POSIX. `SplitDriveParts` and `SplitDriveJoin` state its behaviour. |
| Paths.Render | md_to_pdf.py:35 | The text `os.path.abspath` returns: drive, separator, segments joined with the host's separator. |
| Paths.Join | md_to_pdf.py:64 | `os.path.join`. `JoinKeepsSuffix`, `AbspathJoin`, `DirnameOfJoin` and `JoinInjective` state its behaviour. |
| Paths.Dirname | md_to_pdf.py:18 | `os.path.dirname`. `DirnameOfJoin` states that it undoes a join up to trailing separators. |
| Paths.Trimmed | md_to_pdf.py:18 | A directory as `os.path.dirname` writes it back: trailing separators removed unless only separators follow the drive. `DirnameOfJoin` and `JoinInjective` use it. |
| Paths.AbspathDriveJoin | md_to_pdf.py:64 | `os.path.abspath(os.path.join(a, sub))` is on the drive of `a` when `sub` is relative and has no drive. |
| Paths.RelpathDefined | md_to_pdf.py:83 | `os.path.relpath(path, start)` fails exactly when `path` is empty or lies on another drive than `start`. |
| Paths.Relpath | md_to_pdf.py:83 | `os.path.relpath`, with `ValueError` as `None`. `RelpathOfJoin` states that it undoes a join below `start`. |
| Paths.AbspathJoin | md_to_pdf.py:35 | `os.path.abspath(os.path.join(a, sub))`, for a relative `sub` of proper names, is the absolute path of `a` with the names of `sub` appended. The drive is unchanged. |
| Paths.RelpathOfJoin | md_to_pdf.py:83 | `os.path.relpath(os.path.join(start, sub), start)` never fails for such a `sub`. It returns the names of `sub` joined with the host's separator. |
| Paths.DirnameOfJoin | md_to_pdf.py:18 | `os.path.dirname(os.path.join(d, name))` is `d` without its trailing separators, kept whole when only separators follow the drive (`/`, `D:/`), and `d` itself when it has no trailing separator. |
| Paths.SegmentsSep | md_to_pdf.py:35 | A separator splits the segments of a path into those before it and those after it. |
| Paths.NormalizeNames | md_to_pdf.py:35 | Normalisation leaves proper names appended to a segment list as they are. |
| Paths.SplitDriveJoin | md_to_pdf.py:35 | Joining a relative name without a drive keeps the drive of the directory. |
| Paths.JoinInjective | md_to_pdf.py:64 | Joining a file name onto any directory loses nothing: equal results mean equal names and directories that are equal once trailing separators are removed. |
| Paths.JoinKeepsSuffix | md_to_pdf.py:64 | `os.path.join(root, file)` still ends in `.md` when `file` does. |
| ImagePaths.FindRef | md_to_pdf.py:21-24 | A reference is found exactly when the line holds `![` and `](` and a `)` follows the first `](`. The reference is that first `](` and the first `)` after it, which lies at least two characters later. |
| ImagePaths.Target | md_to_pdf.py:25 | The stripped text between the `](` and the `)`. |
| ImagePaths.IsRemote | md_to_pdf.py:27 | A target starting with `http://` or `https://` in any letter case. `LowerStartsWithIff` states the case-blind test. |
| ImagePaths.AbsTarget | md_to_pdf.py:35 | The target joined onto the Markdown file's directory and made absolute. |
| ImagePaths.Splice | md_to_pdf.py:42 | `line[:start+2] + resolved + line[end:]`. `SpliceShape` and `LocalTargetRewritten` state what is kept. |
| ImagePaths.Annotate | md_to_pdf.py:29-30 | The size annotation inserted at an offset, only in md_to_pdf.py and only when the text has no `{`. `AnnotateIdempotent` states it is added at most once. |
| ImagePaths.FixLine | md_to_pdf.py:20-48 | The specification of one line's rewrite, as one pass of the loop emits it. `UnreferencedLineUnchanged`, `RemoteTargetKept`, `LocalTargetRewritten` and `AnnotationAtOriginalOffset` state what it does in each case. |
| ImagePaths.LineWarnings | md_to_pdf.py:36-37 | The missing-image warning one line prints. `LocalTargetRewritten` and `RemoteTargetKept` state when it is printed. |
| ImagePaths.Warnings | md_to_pdf.py:20-37 | The warnings of `fix_image_paths`: those of every line, in line order. `FixImagePaths` returns exactly these. |
| ImagePaths.ForVariant | md_to_docx.py:39 | The PDF variants leave no backslash in the resolved path; the Word variant leaves no forward slash. Lengths are kept. |
| ImagePaths.Resolved | to_pdf.py:32-36 | The resolved path follows the variant's separator convention. |
| ImagePaths.FixLines | md_to_pdf.py:20-48 | The rewrite yields one line per input line. |
| ImagePaths.FixOneLine | md_to_pdf.py:21-48 | One pass of the line loop computes exactly the specified rewrite of the line and its warning. |
| ImagePaths.FixRemoteRef | md_to_pdf.py:27-32 | The remote branch: the line is kept, with the size annotation in the annotating variant. |
| ImagePaths.FixLocalRef | md_to_pdf.py:35-47 | The local branch: it resolves, warns, converts separators, splices and annotates as specified. |
| ImagePaths.FixImagePaths | md_to_pdf.py:14-49 | `fix_image_paths` returns the specified rewrite of every line of `splitlines()`, joined with `\n`, plus the warnings of every line in order. |
| ImagePaths.OneLinePerInputLine | md_to_pdf.py:16-49 | Splitting the output again gives one line per input line. Line `k` is the rewrite of input line `k`. |
| ImagePaths.UnreferencedLineUnchanged | to_pdf.py:23-40 | A line without both `![` and `](` is emitted unchanged and produces no warning. |
| ImagePaths.RemoteTargetKept | md_to_pdf.py:27-32 | A remote target is never rewritten. The line is kept through the closing `)`, and only the annotating variant inserts the size annotation, only when the line has no `{`. No warning is printed. |
| ImagePaths.LocalTargetRewritten | to_pdf.py:32-38 | A local target is resolved against the Markdown file's own directory and spliced in. The line keeps everything through the first `](`; without annotation it is `line[:start+2] + resolved + line[end:]`. PDF paths hold no `\` and Word paths no `/`. A missing target only adds a warning. |
| ImagePaths.AnnotateIdempotent | md_to_pdf.py:44-45 | The annotation is added at most once: a second pass finds its `{` and leaves the line alone. |
| ImagePaths.AnnotationAtOriginalOffset | md_to_pdf.py:42-45 | In the rewritten line the `)` sits right after the resolved path. The annotation goes in at `end + 1` of the original line, or at the end when that lies past the rewritten line. |
| Locator.CharWarningsSound | md_to_pdf.py:61-63 | Every name warning names a refused character the file name really holds. |
| Locator.CharWarningsComplete | md_to_pdf.py:61-63 | Every refused character a `.md` name holds is reported. |
| Locator.CharWarnings | md_to_pdf.py:61-63 | The warnings for one name, one per refused character it holds, in the order of `\/:*?"<>|`. `CharWarningsSound` and `CharWarningsComplete` state both directions. |
| Locator.NameWarnings | md_to_pdf.py:57-63 | The name warnings of the whole walk, in walk order. `NoNameWarnings` states that only md_to_pdf.py prints them. |
| Locator.FoundIn | md_to_pdf.py:58-64 | The `.md` paths of one directory, in listing order. |
| Locator.Found | md_to_pdf.py:57-64 | The `.md` paths of the whole walk, in walk order. `FoundAllMarkdown`, `FoundComplete`, `FoundSound` and `FoundDistinct` state what it holds. |
| Locator.FoundSound | md_to_pdf.py:57-64 | Every collected path is a name of some directory of the walk joined onto that directory. |
| Locator.FoundDistinct | md_to_pdf.py:57-64 | When the walk lists every directory once and every file name once per directory, no path is collected twice. Directories are compared without trailing separators. Roots such as `/` or `D:/` and a top written with a trailing separator are covered. |
| Locator.WalkBelow | md_to_pdf.py:57 | The walk is `os.walk(directory)`: each root is the directory itself or the directory joined with a relative path that has no drive. |
| Locator.FoundBelow | md_to_pdf.py:57-64 | For a walk of the root, `os.path.relpath(p, root)` never fails on a collected path `p`: it is non-empty and on the root's drive. |
| Locator.DistinctPermutation | md_to_pdf.py:67 | Sorting keeps the paths distinct. |
| Locator.NoNameWarnings | to_pdf.py:44-52 | Only md_to_pdf.py checks names; the other scripts print no name warning. |
| Locator.FoundAllMarkdown | md_to_pdf.py:57-64 | Every collected path ends in `.md`. |
| Locator.FoundComplete | md_to_pdf.py:57-64 | Every `.md` name of every directory of the walk is collected, joined onto its root, even when its name draws a warning. |
| Locator.LexLeTotal | md_to_pdf.py:67 | Python's string order is total. |
| Locator.LexLeTrans | md_to_pdf.py:67 | Python's string order is transitive. |
| Locator.LexLeAntisymmetric | md_to_pdf.py:67 | Python's string order is antisymmetric. |
| Locator.LexLe | md_to_pdf.py:67 | Python's `str` order, which `md_files.sort()` uses: code point by code point, a proper prefix first. `LexLeTotal`, `LexLeTrans` and `LexLeAntisymmetric` state that it is a total order. |
| Locator.InsertLast | md_to_pdf.py:67 | One insertion pass moves the name at `i` left past every larger name. The first `i + 1` names end up ascending and are a rearrangement of the names that were there; the names after `i` are untouched. |
| Locator.SortInPlace | to_pdf.py:51 | `list.sort()` in place: the array ends ascending and holds the same names. |
| Locator.Sort | md_to_docx.py:58 | Sorting yields an ascending permutation of the list. |
| Locator.SortedUnique | merge_md_to_docx.py:49 | Two ascending lists of the same names are equal. So the merge order depends only on the set of names found, not on the walk order. |
| Locator.CheckFileName | md_to_pdf.py:61-63 | The check of one name yields one warning per refused character it holds, in the order of `\/:*?"<>|`. |
| Locator.CollectIn | md_to_pdf.py:58-64 | The inner loop collects exactly the `.md` paths of one directory and their name warnings. |
| Locator.CollectMarkdownFiles | md_to_pdf.py:52-68 | `collect_markdown_files` returns an ascending permutation of every `.md` path of the walk. Every element ends in `.md`, no path occurs twice when the walk lists each directory (compared without trailing separators) and each file name once, and the warnings are those of the walk. |
| Merge.HeaderEscaped | md_to_pdf.py:83-85 | In a PDF header every `_` is written `\_`: every backslash is directly followed by an underscore, every underscore directly follows a backslash, and un-escaping gives the slash-normalised relative path. A Word header is the raw relative path. |
| Merge.Header | md_to_pdf.py:83-85 | The section header of a file: the raw relative path for Word; for PDF, `\` becomes `/` and `_` becomes `\_`. `HeaderEscaped` states what it keeps. |
| Merge.Block | md_to_pdf.py:88 | One file's block `\n\n---\n\n# <header>\n\n<body>\n`. |
| Merge.FileBlock | md_to_pdf.py:75-88 | One file's block, or the error that stops the merge there: unreadable first, then no relative path. `FileBlockOk` and `FileBlockBelowRoot` state when it succeeds. |
| Merge.Concat | md_to_pdf.py:73-90 | The blocks appended in order, up to the first error. `ConcatOkIff`, `ConcatAppend`, `ConcatFirstErr` and `ConcatPrefixErr` state its behaviour. |
| Merge.Merged | md_to_pdf.py:71-90 | The specification of `merge_markdown_files`: the blocks of the files, concatenated. `MergedOkIff`, `MergedFirstErr`, `MergedAppend` and `MergedSingle` state its behaviour. |
| Merge.MergeLog | md_to_pdf.py:71-90 | The warnings of every file up to and including the first one that fails. |
| Merge.FixedText | md_to_pdf.py:79 | `fix_image_paths(content, md_file)`: the file's lines rewritten against the file's own directory and joined with `\n`. `FixImagePaths` computes it and `FixedTextBase` states the directory. |
| Merge.FixLog | md_to_pdf.py:79 | The warnings `fix_image_paths(content, md_file)` prints. |
| Merge.ConcatOkIff | md_to_pdf.py:74-88 | The concatenation of blocks succeeds exactly when every block does. |
| Merge.ConcatAppend | md_to_pdf.py:88 | Concatenating `a + b` is concatenating `a`, then `b`. |
| Merge.ConcatFirstErr | md_to_pdf.py:74-88 | A failed concatenation reports the error of its first failing block. All blocks before it succeed. |
| Merge.ConcatPrefixErr | md_to_pdf.py:74-88 | Once a prefix has failed, the whole fails with the same error and prints no further warning. |
| Merge.MergedFirstErr | md_to_docx.py:65-72 | A failed merge stops at the first file that cannot be opened or has no relative path, and reports that file. |
| Merge.MergedOkIff | merge_md_to_docx.py:56-61 | The merge succeeds exactly when every file can be read and has a path relative to the root. |
| Merge.FileBlockOk | md_to_pdf.py:76-88 | One file contributes a block exactly when it can be read and has a relative path. |
| Merge.FileBlockBelowRoot | md_to_pdf.py:83-85 | A readable file at `os.path.join(DOCS_DIR, sub)` always contributes a block. Its header is the names of `sub` joined with the host's separator, escaped as the variant demands. |
| Merge.FixedTextBase | md_to_pdf.py:14-18 | The image references of the file `os.path.join(dir, name)` are resolved, and warned about, against `dir` without its trailing separators. That is `dir` itself when it has none; `/` and `D:/` are kept whole. |
| Merge.MergedAppend | to_pdf.py:58-65 | The merge is an in-order concatenation: merging `a + b` is merging `a`, then `b`. |
| Merge.MergedSingle | md_to_pdf.py:88 | A single file merges to exactly its block `\n\n---\n\n# H\n\n<body>\n`. |
| Merge.MergeOne | md_to_pdf.py:75-88 | One loop pass opens the file, rewrites its images, takes its relative path and builds its block or its error, with its warnings. |
| Merge.MergeMarkdownFiles | md_to_pdf.py:71-90 | `merge_markdown_files` returns the specified concatenation and the warnings of every file up to the first failure. |
| Engine.DetectPdfEngine | md_to_pdf.py:93-105 | xelatex exactly when it is installed; wkhtmltopdf exactly when only it is installed; exit exactly when neither is. |
| Engine.HeadArgs | md_to_pdf.py:118-126 | The first six arguments: the root with every backslash turned into `/` as the resource path, and the engine after `--pdf-engine`. |
| Engine.SizeArgs | md_to_pdf.py:129 | The `graphicxopts` variable, which only md_to_pdf.py passes. |
| Engine.PageArgs | md_to_pdf.py:127-128 | The page variables both PDF scripts pass: A4 paper and one-inch margins. `PdfExtraArgs` places them after the first six arguments. |
| Engine.PdfExtraArgs | md_to_pdf.py:118-140 | The argument list, piece by piece: the first six arguments, the page variables, the image size variable (md_to_pdf.py only), then the font variables exactly when the engine is xelatex. |
| Engine.FontArgs | to_pdf.py:98-103 | Both PDF scripts set `mainfont` and `CJKmainfont`. Only md_to_pdf.py sets `sansfont` and `monofont`. |
| Engine.DocxExtraArgs | md_to_docx.py:88-91 | The Word scripts pass `--standalone` and the root unchanged as the resource path. |
| Pipeline.BuildJob | md_to_pdf.py:173-178 | After collection the run produces a job exactly when the merge succeeds and, for PDF, an engine is installed. A merge error ends the run with that error; otherwise the PDF scripts end with the engine error exactly when no engine is installed. The job carries the merged text and the argument list. |
| Pipeline.RunScript | md_to_pdf.py:165-178 | `main()`: the run ends with no output exactly when no `.md` file is found, and produces a job exactly when files are found, the merge succeeds and, for PDF, an engine is installed. For a walk of the root itself, success needs only that every collected file can be read. Otherwise the outcome is as `BuildJob` states. The warnings are the name warnings, then the merge warnings. |
| Pipeline.WalkMergedOkIff | md_to_pdf.py:57-85 | For files collected from a walk of the root, the merge never fails at `os.path.relpath`: it succeeds exactly when every file can be read. |

## Left out

- The GUI script md_converter_gui.py is not part of this model. It only
  starts the scripts as subprocesses.
- pandoc is not modelled. The model stops at the job handed to it: the
  merged text and `extra_args`. Temporary files, the output paths, pandoc's
  own failure (`exit(1)` on `RuntimeError` in md_to_pdf.py) and the
  `--resource-path` lookup are not modelled.
- `shutil.which` is replaced by two flags saying whether xelatex and
  wkhtmltopdf are installed.
- `os.walk` is replaced by the sequence of `(root, files)` steps it yields.
  The walk order is a parameter, and the sort makes the result independent
  of it. What `os.walk` guarantees about its steps is stated as predicates
  (`ValidWalk`, `WalkBelow`). The results that need them assume them
  explicitly; the other results hold for any sequence of steps.
- `os.path.exists` is replaced by the set of existing paths.
- `open(...).read()` is replaced by a map from path to text. A path that is
  not a key cannot be opened. UTF-8 decoding errors are not modelled.
- Progress messages are left out. The warnings about missing images and
  suspicious names are kept, as a log of `Warning` values in print order.
- The exceptions that end a run early become `Err` results:
  - an unreadable file;
  - `relpath` raising `ValueError` for a path on another drive;
  - no PDF engine (`exit(1)`).
- "No `.md` file found" also becomes an `Err`. The scripts print a message
  and return normally there.
- `sys.argv` and the hard-coded `DOCS_DIR` are replaced by a parameter.
  The current directory of `abspath` is a parameter too.
- `Paths` models `os.path` as a drive plus normalised segments. It does
  not model:
  - UNC paths or case-insensitive drive comparison;
  - the POSIX `//` prefix;
  - Windows trailing dots and spaces;
  - per-drive current directories (a path like `E:x` on another drive
    starts at that drive's root);
  - symbolic links;
  - `ntpath.relpath`'s case-blind comparison of segments (`normcase`):
    on Windows, `C:\Docs\a.md` relative to `C:\docs` is `a.md` in
    Python but `..\Docs\a.md` here, so such a header differs;
  - `ntpath.splitroot`'s rule that a leading separator comes before any
    drive: a `:` in second place is always read as a drive here.
- `Text.Lower` lowers ASCII letters only. No other character lowercases to
  one of the letters of `http://` or `https://`, so the remote test is
  unaffected.
- ImagePaths.OneLinePerInputLine: the round trip is stated only when no
  rewritten line holds a line boundary and the last rewritten line is not
  empty. Python's `splitlines` drops a trailing empty line and splits
  inside a resolved path that holds a boundary character, so without those
  conditions the output may split into a different number of lines.
- Text.SplitLinesJoin: stated under the same two conditions, for the same
  reason.
- Pipeline.BuildJob and Pipeline.RunScript: for PDF they state the engine
  and its position in the argument list. `PdfExtraArgs` states the rest of
  the list.
