/** Shared vocabulary of the Markdown aggregation engine: optional values,
    results with the engine's error taxonomy, the warnings it logs, and the
    output variant that selects the behaviour of the four scripts. */
module Common {

  datatype Option<T> = None | Some(value: T)

  /** The conditions that end a pass with no output artifact. */
  datatype Error =
    | NoMarkdownFiles              // main(): the walk found no `.md` file
    | NoEngine                     // detect_pdf_engine(): neither xelatex nor wkhtmltopdf, exit(1)
    | Unreadable(path: string)     // open() of a collected file failed
    | NoRelativePath(path: string) // os.path.relpath raised ValueError (empty path, other drive)

  datatype Result<T> = Ok(value: T) | Err(error: Error)

  /** The diagnostics the scripts print and carry on after. */
  datatype Warning =
    | MissingImage(path: string)                  // resolved local image does not exist
    | SuspiciousFileName(c: char, name: string)   // `.md` file name holds a character Windows refuses

  /** The output variant. Docx is md_to_docx.py and merge_md_to_docx.py,
      PdfPlain is to_pdf.py (the script the GUI runs), PdfAnnotated is
      md_to_pdf.py. */
  datatype Variant = Docx | PdfPlain | PdfAnnotated {
    /** Resolved image paths use forward slashes and headers are escaped. */
    predicate IsPdf() { this != Docx }
    /** Image references receive a size annotation. */
    predicate Annotates() { this == PdfAnnotated }
    /** File names are checked for characters Windows refuses. */
    predicate ChecksFileNames() { this == PdfAnnotated }
  }
}
