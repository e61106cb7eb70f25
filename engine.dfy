/** `detect_pdf_engine()` and the pandoc argument list that
    `convert_to_pdf` builds, plus the two-element list the Word scripts pass.
    Whether an engine is on the PATH (`shutil.which`) is given as a flag. */
module Engine {
  import opened Common
  import opened Text
  import ImagePaths

  datatype PdfEngine = Xelatex | Wkhtmltopdf

  /** The name pandoc is given after `--pdf-engine`. */
  function EngineName(engine: PdfEngine): string
  {
    match engine
    case Xelatex => "xelatex"
    case Wkhtmltopdf => "wkhtmltopdf"
  }

  /** The main font the PDF scripts ask xelatex for. */
  const ChineseFont: string := "Microsoft YaHei"

  /** The global image size variable of md_to_pdf.py, with the same TAB
      characters as the size annotation. */
  const GraphicxOpts: string :=
    "graphicxopts=width=" + ImagePaths.MaxImageWidth + ", height=" + ImagePaths.MaxImageHeight + ", keepaspectratio"

  /** `detect_pdf_engine()`: xelatex when it is installed, otherwise
      wkhtmltopdf when that is, otherwise the script exits with status 1. */
  function DetectPdfEngine(hasXelatex: bool, hasWkhtmltopdf: bool): (r: Result<PdfEngine>)
    ensures r == Ok(Xelatex) <==> hasXelatex
    ensures r == Ok(Wkhtmltopdf) <==> !hasXelatex && hasWkhtmltopdf
    ensures r == Err(NoEngine) <==> !hasXelatex && !hasWkhtmltopdf
  {
    if hasXelatex then Ok(Xelatex)
    else if hasWkhtmltopdf then Ok(Wkhtmltopdf)
    else Err(NoEngine)
  }

  /** The variables md_to_pdf.py adds for xelatex. */
  const AnnotatedFontArgs: seq<string> := [
    "--variable", "mainfont=" + ChineseFont,
    "--variable", "sansfont=SimHei",
    "--variable", "monofont=Consolas",
    "--variable", "CJKmainfont=Microsoft YaHei",
    "--variable", "geometry=margin=1in"
  ]

  /** The variables to_pdf.py adds for xelatex. */
  const PlainFontArgs: seq<string> := [
    "--variable", "mainfont=" + ChineseFont,
    "--variable", "CJKmainfont=Microsoft YaHei",
    "--variable", "geometry=margin=1in"
  ]

  /** The arguments both PDF scripts pass first: the documentation root
      as the resource path, in forward slashes, and the chosen engine. */
  function HeadArgs(docsDir: string, engine: PdfEngine): (r: seq<string>)
    ensures |r| == 6 && r[4..6] == ["--pdf-engine", EngineName(engine)]
    ensures r[1] == "--resource-path=" + ReplaceChar(docsDir, '\\', '/') && '\\' !in r[1]
  {
    ReplaceCharRemoves(docsDir, '\\', '/');
    ["--standalone", "--resource-path=" + ReplaceChar(docsDir, '\\', '/'), "--toc", "--toc-depth=3",
     "--pdf-engine", EngineName(engine)]
  }

  /** The page variables both PDF scripts pass: A4 paper, one-inch margins. */
  function PageArgs(): seq<string>
  {
    ["--variable", "geometry:a4paper", "--variable", "margin=1in"]
  }

  /** The image size variable, which only md_to_pdf.py passes. */
  function SizeArgs(v: Variant): seq<string>
  {
    if v.Annotates() then ["--variable", GraphicxOpts] else []
  }

  /** The `extra_args` of `convert_to_pdf(merged_text, pdf_engine)` for a
      documentation root `docsDir`: the common arguments with the root in
      forward slashes and the chosen engine, the page variables, the image
      size variable in md_to_pdf.py, then the font variables exactly when
      the engine is xelatex. */
  method PdfExtraArgs(v: Variant, docsDir: string, engine: PdfEngine) returns (args: seq<string>)
    requires v.IsPdf()
    ensures |args| == 10 + |SizeArgs(v)| + (if engine == Xelatex then |FontArgs(v)| else 0)
    ensures args[..6] == HeadArgs(docsDir, engine)
    ensures args[6..10] == PageArgs()
    ensures args[10..10 + |SizeArgs(v)|] == SizeArgs(v)
    ensures engine == Xelatex ==> args[10 + |SizeArgs(v)|..] == FontArgs(v)
  {
    args := HeadArgs(docsDir, engine) + PageArgs() + SizeArgs(v);
    var fonts: seq<string> := [];
    if engine == Xelatex {
      fonts := FontArgs(v);
      args := args + fonts;
    } else {
      assert args == args + fonts;
    }
    Pieces(HeadArgs(docsDir, engine), PageArgs(), SizeArgs(v), fonts);
  }

  /** Where each of four pieces lies in their concatenation. */
  lemma Pieces(a: seq<string>, b: seq<string>, c: seq<string>, d: seq<string>)
    ensures (a + b + c + d)[..|a|] == a
    ensures (a + b + c + d)[|a|..|a| + |b|] == b
    ensures (a + b + c + d)[|a| + |b|..|a| + |b| + |c|] == c
    ensures (a + b + c + d)[|a| + |b| + |c|..] == d
  {
  }

  /** The font variables each PDF script adds for xelatex. */
  function FontArgs(v: Variant): (r: seq<string>)
    ensures ("mainfont=" + ChineseFont) in r && "CJKmainfont=Microsoft YaHei" in r
    ensures ("sansfont=SimHei" in r || "monofont=Consolas" in r) <==> v.Annotates()
  {
    if v.Annotates() then AnnotatedFontArgs else PlainFontArgs
  }

  /** The `extra_args` of the Word scripts: the root is passed unchanged. */
  function DocxExtraArgs(docsDir: string): (r: seq<string>)
    ensures |r| == 2 && r[0] == "--standalone"
    ensures HasPrefix(r[1], "--resource-path=") && r[1][|"--resource-path="|..] == docsDir
  {
    ["--standalone", "--resource-path=" + docsDir]
  }
}
