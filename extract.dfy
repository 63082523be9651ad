/** Text extraction by extension: `.txt` is read as UTF-8, `.docx` and `.pdf`
    are parsed by their libraries into paragraph or page texts, which
    `text_from_docx` and `text_from_pdf` join with newlines. */
module Extract {
  import opened Wrappers
  import opened PyStr
  import opened Upload

  /** What reading the saved upload produces, per reader: the decoded text of
      `open(path, encoding="utf-8").read()`, the paragraph texts python-docx
      finds, and the page texts PyPDF2 extracts — or the text of the exception
      each one raises. Only the reader the extension selects is consulted. */
  datatype Readers = Readers(
    text: Result<string>,
    paragraphs: Result<seq<string>>,
    pages: Result<seq<string>>)

  /** `"\n".join(pieces)`, the last step of both `text_from_docx` and
      `text_from_pdf`. */
  function JoinLines(pieces: seq<string>): string {
    Join("\n", pieces)
  }

  /** The `if`/`elif` dispatch of the `try` block: the extension, already
      validated, selects the reader; a reader's exception propagates. */
  function ExtractText(ext: string, file: Readers): Result<string>
    requires ext in UPLOAD_EXTENSIONS
  {
    if ext == ".txt" then file.text
    else if ext == ".docx" then
      match file.paragraphs
      case Success(paragraphs) => Success(JoinLines(paragraphs))
      case Failure(e) => Failure(e)
    else
      match file.pages
      case Success(pages) => Success(JoinLines(pages))
      case Failure(e) => Failure(e)
  }

  /** A document of one paragraph or one page, or a text file, extracts to
      exactly its text. */
  lemma OnePieceVerbatim(ext: string, file: Readers, x: string)
    requires ext in UPLOAD_EXTENSIONS
    requires ext == ".txt" ==> file.text == Success(x)
    requires ext == ".docx" ==> file.paragraphs == Success([x])
    requires ext == ".pdf" ==> file.pages == Success([x])
    ensures ExtractText(ext, file) == Success(x)
  {
  }

  /** A document of `n` pages (or paragraphs) that all extract to "" yields
      `n - 1` newlines, not the empty string, once `n` exceeds one. */
  lemma {:induction false} BlankPiecesGiveNewlines(n: nat)
    requires n >= 1
    ensures JoinLines(seq(n, _ => "")) == seq(n - 1, _ => '\n')
  {
    var blanks := seq(n, _ => "");
    if n > 1 {
      assert blanks[1..] == seq(n - 1, _ => "");
      BlankPiecesGiveNewlines(n - 1);
      assert JoinLines(blanks) == "" + "\n" + seq(n - 2, _ => '\n');
    }
  }
}
