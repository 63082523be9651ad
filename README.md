# Mindmap Summary: a Dafny model of `home()` and `cleaned_response()`

Mindmap Summary is a one-page Flask application. A user uploads a `.txt`,
`.docx` or `.pdf` document. The server saves it under `uploads/`, extracts
its text, and sends the text to a Gemini language model with a system prompt
that asks for a JSON mindmap. It then strips the reply of any Markdown code
fence, parses it as JSON and renders the mindmap. The saved file is deleted
however the request ends. Every failure reaches the user as a flash message
on a redirect to the form.

The model covers the code in `app.py`:

- `PyStr` (`pystr.dfy`): the Python `str` operations the application relies
  on. These are `strip()` with CPython's whitespace set, `startswith`,
  `find`/`rfind` for one character, `split(sep, 1)`, `rsplit(sep, 1)`,
  `sep.join` and `lower()`.
- `PyPath` (`pypath.dfy`): `os.path.splitext` and two-part `os.path.join`,
  in their POSIX form.
- `Sanitizer` (`sanitizer.dfy`): `cleaned_response`. A list index error is
  an explicit `Failure` carrying Python's message.
- `Upload` (`upload.dfy`): the three checks `home()` makes on a POST before
  it writes anything, with their flash messages.
- `Extract` (`extract.dfy`): the `if`/`elif` dispatch by extension, and the
  newline join of `text_from_docx` and `text_from_pdf`. What the libraries
  return, or raise, is an input.
- `Handler` (`handler.dfy`): the route itself. Class `App` holds the
  files the process can write, as a set of paths, and the flash queue. These
  are the files of `uploads/` and every other path a client filename can
  reach: `os.path.join` returns an absolute filename unchanged, so an upload
  named "/srv/app.txt" is saved over, and then removes, "/srv/app.txt". Its
  method `Home` saves, tries, flashes and always removes, as the route does.

The language model and the JSON parser are function parameters. `model`
gives the response, or the text of the exception the call raised. The
response's `text` is itself the reply or the text of the exception that
reading it raises, as for a blocked reply. `loads` gives the
result of `json.dumps(json.loads(s))`, or `None` on `JSONDecodeError`.

Line 89 reads `cleaned_response = cleaned_response(response.text)`. The
assignment makes `cleaned_response` a local name of `home()`. Reading it to
make the call raises `UnboundLocalError`, before `response.text` is
evaluated. The handler at line 99 catches it. As written, then, no upload is
ever rendered. `Handler.Revision` selects the text of line 89.
`Handler.App.revision == AsWritten` is the application as it is.
`Corrected` calls the module-level function as evidently intended. Both
are proved about: see "## Findings".

`text_from_pdf` joins page texts with `"\n"`, so `n >= 1` pages without a
text layer extract to `n - 1` newlines (`Extract.BlankPiecesGiveNewlines`).
Only zero pages or one such page give `""`.

## Model

| member | source | states |
|---|---|---|
| PyStr.Strip | app.py:122 | `str.strip()`: drops the leading, then the trailing whitespace (`LStrip`, `RStrip`) |
| PyStr.Join | app.py:109 | `sep.join(pieces)`: the pieces in order with `sep` between neighbours, "" for no pieces |
| PyStr.LStripDropsLeadingSpace | app.py:122 | the left strip is a suffix of the input; every character dropped is whitespace; the first one kept is not |
| PyStr.RStripDropsTrailingSpace | app.py:122 | the right strip is a prefix of the input; every character dropped is whitespace; the last one kept is not |
| PyStr.StripMeaning | app.py:122 | `strip()` yields a slice of the input with only whitespace outside it and no whitespace at either of its ends |
| PyStr.StripUnique | app.py:122 | at most one string is a strip of a given input in that sense, so `Strip` is the only function meeting it |
| PyStr.StripNoEdgeSpace | app.py:122 | a string without whitespace at its ends is its own strip |
| PyStr.StripIdempotent | app.py:122 | stripping twice is stripping once |
| PyStr.StripIsSubstring | app.py:122 | the strip occurs inside the input |
| PyStr.Find | app.py:124 | the first index of the character, or -1 exactly when it is absent |
| PyStr.RFind | app.py:125 | the last index of the character, or -1 exactly when it is absent |
| PyStr.RFindAt | app.py:125 | an occurrence with none after it is the one `rfind` returns |
| PyStr.SplitOnce | app.py:124 | one piece (the whole input) exactly when the separator is absent; otherwise two pieces around its first occurrence |
| PyStr.RSplitOnce | app.py:125 | one piece (the whole input) exactly when the separator is absent; otherwise two pieces around its last occurrence |
| PyStr.JoinSplitOnce | app.py:124 | joining the pieces of `split(sep, 1)` with `sep` gives back the input |
| PyStr.SplitOnceJoin | app.py:124 | splitting a join once gives its first piece and the join of the rest, when the first piece has no separator |
| PyStr.RSplitOnceJoin | app.py:125 | rsplitting a join once gives the join of all but the last piece and the last piece, when the last has no separator |
| PyStr.SplitAtJoint | app.py:124 | `split(sep, 1)` of `a + sep + b` is `[a, b]` when `a` has no separator |
| PyStr.RSplitAtJoint | app.py:125 | `rsplit(sep, 1)` of `a + sep + b` is `[a, b]` when `b` has no separator |
| PyStr.FirstSeparatorSplit | app.py:124 | `split(sep, 1)` cuts at the first occurrence of the separator |
| PyStr.LastSeparatorSplit | app.py:125 | `rsplit(sep, 1)` cuts at the last occurrence of the separator |
| PyStr.JoinSnoc | app.py:109 | joining one more piece appends the separator and that piece |
| PyStr.JoinAppend | app.py:116 | the join of two non-empty runs of pieces is their joins around one separator |
| PyStr.LowerKeepsNonLetter | app.py:67 | lower-casing keeps every character that is not an ASCII letter exactly where it was |
| PyStr.RFindLower | app.py:67 | the last '.' or '/' of a lower-cased name is where it was |
| PyStr.LowerSlice | app.py:67 | lower-casing commutes with slicing |
| PyStr.LowerIdempotent | app.py:67 | lower-casing twice is lower-casing once |
| PyPath.SplitExt | app.py:67 | `os.path.splitext`: cuts at the last '/' and the last '.' found by `rfind` |
| PyPath.Cut | app.py:67 | cuts in front of the last dot when it follows the last '/' and a non-dot comes between them, and otherwise gives `(p, "")` |
| PyPath.JoinPath | app.py:73 | `os.path.join(a, b)`: an absolute `b` replaces `a`; otherwise a '/' is inserted unless `a` is empty or ends in one |
| PyPath.AbsentAfter | app.py:67 | a character absent from index `i` on is not in the suffix from `i` |
| PyPath.SplitExtParts | app.py:67 | `splitext` gives two parts that concatenate to the path; a non-empty extension is one dot followed by neither dot nor '/' |
| PyPath.CutParts | app.py:67 | the same, once the last '/' and the last '.' are known |
| PyPath.SplitAtExt | app.py:67 | `root + ext` splits into `(root, ext)` when root starts with a non-dot, has no '/', and ext is the only dot part |
| PyPath.SplitExtFindsExtension | app.py:67 | the extension is non-empty if and only if a dot in the last path component follows a non-dot of that component |
| PyPath.SplitExtWitness | app.py:67 | a non-empty extension comes with such a non-dot and dot |
| PyPath.CutWitness | app.py:67 | the same, once the last '/' and the last '.' are known |
| PyPath.ExtensionWitnessSplits | app.py:67 | such a non-dot and dot make the extension non-empty |
| PyPath.CutFinds | app.py:67 | a non-dot between the cut points makes the cut happen |
| PyPath.SplitExtLower | app.py:67 | `splitext` of the lower-cased name is the lower-cased `splitext` |
| PyPath.CutLower | app.py:67 | lower-casing commutes with the cut at given indexes |
| PyPath.LowerDots | app.py:67 | a run is all dots exactly when its lower-cased form is |
| PyPath.JoinPathInjective | app.py:73 | joining a fixed relative directory with two names gives the same path only for the same name |
| Sanitizer.CleanedResponse | app.py:120-127 | fails, with "list index out of range", exactly when the stripped reply starts with a fence and has no newline; otherwise yields a substring of the reply, no longer than it, with no whitespace at its ends |
| Sanitizer.FencedBodyWithin | app.py:124-126 | what is left after dropping a first and a last line and stripping lies inside the text |
| Sanitizer.UnfencedIsStripped | app.py:122-123 | a reply whose strip does not start with a fence is returned stripped, and so is its strip |
| Sanitizer.CleanedIsStable | app.py:120-127 | cleaning an already cleaned reply that does not start with a fence changes nothing |
| Sanitizer.FencedKeepsInterior | app.py:123-126 | a fenced reply cleans to the stripped text between its first and its last newline, or after the first when they coincide |
| Sanitizer.FirstLineDropped | app.py:124 | for a fenced reply, `split("\n", 1)[1]` is what follows the first newline |
| Sanitizer.LastLineDropped | app.py:125 | `rsplit("\n", 1)[0]` of that text is what lies before the last newline |
| Sanitizer.FencedBlock | app.py:121-126 | an opening fence with a tag, a body and a closing fence, each on its own line, clean to the stripped body, whatever newlines the body holds |
| Sanitizer.FencedExample | app.py:121-126 | the reply "```json\n{"a":1}\n```" cleans to exactly `{"a":1}` |
| Upload.Validate | app.py:57-70 | no `file` field, an empty filename, and an extension outside the list are refused in that order; an accepted upload carries its lower-cased `splitext` suffix, which is in the list |
| Upload.RejectionMessage | app.py:58-69 | the flash text of each refusal: "No file part", "No selected file", "File extension not allowed" |
| Upload.AcceptedNameEndsWithExt | app.py:67-68 | an accepted filename has an extension, and its last characters are, up to case, the extension it was accepted with |
| Upload.NoExtensionRejected | app.py:67-69 | a non-empty filename without an extension is refused |
| Upload.ValidateIgnoresCase | app.py:67 | lower-casing the filename first never changes the decision |
| Upload.DecidedBySuffix | app.py:67-68 | a non-empty filename is decided by its `splitext` suffix alone |
| Upload.UpperCaseAccepted | app.py:67-68 | "X.PDF" is accepted as ".pdf" |
| Upload.LastSuffixOnly | app.py:67-68 | "a.tar.PDF" is judged by its last suffix and accepted as ".pdf" |
| Upload.PlainNameRejected | app.py:67-69 | "notes" is refused |
| Upload.HiddenNameRejected | app.py:67-69 | a name with one leading dot and no other dot has no extension and is refused |
| Upload.DotFileRejected | app.py:67-69 | ".pdf" is refused |
| Extract.ExtractText | app.py:77-84 | the extension selects the reader: `.txt` gives the decoded text, `.docx` and `.pdf` the newline join of paragraphs or pages; a reader's exception propagates |
| Extract.JoinLines | app.py:116 | `"\n".join(...)` of the paragraph or page texts |
| Extract.OnePieceVerbatim | app.py:78-84 | a text file, or a document of one paragraph or one page, extracts to exactly its text |
| Extract.BlankPiecesGiveNewlines | app.py:116 | `n` pages that each extract to "" join to `n - 1` newlines |
| Handler.TryBlock | app.py:76-101 | how the `try` block ends: an extraction error, a model-call error, the `UnboundLocalError` as written; once corrected, a `text` error, the sanitizer's error, invalid JSON, or the parsed mindmap |
| Handler.FlashesOf | app.py:95-100 | a caught exception flashes "error: " and its text, invalid JSON flashes "Error: Invalid JSON response", a parsed mindmap flashes nothing |
| Handler.PageOf | app.py:93-101 | a parsed mindmap renders the form with it; every other ending redirects to the form |
| Handler.App.constructor | app.py:45-48 | a server starts with the existing files (of the upload directory and any other path a filename can reach), no flashes, no handled uploads |
| Handler.App.Home | app.py:52-104 | a GET changes nothing; a refused POST changes no file and flashes its one message; an accepted POST leaves the files without the saved path, even one outside `uploads/`, flashes what the `try` block ends in, and answers with its page; no handled upload ever remains |
| Handler.AsWrittenNeverRenders | app.py:87-89 | as written, every accepted upload ends in a flash of the extraction error, the model error or the `UnboundLocalError`, and a redirect |
| Handler.CorrectedRendersParsedReply | app.py:89-96 | once line 89 is corrected, a cleaned reply that parses is rendered without a flash, and one that does not parse gives the invalid-JSON flash |
| Handler.CorrectedParsesWhatTheSanitizerKeeps | app.py:89-96 | once corrected, an unfenced reply is parsed after stripping, and a fenced block after dropping its fence lines |
| Handler.BlockedReplyReported | app.py:87-89 | a response whose `text` raises gives that error's flash once line 89 is corrected, and the `UnboundLocalError` flash as written, because the callee is loaded before `response.text` is read |
| Handler.ExtractionAndModelErrorsLookAlike | app.py:77-87 | an extraction error and a model error with the same text give the same flash |
| Handler.InvalidJsonIsDistinct | app.py:95 | the invalid-JSON flash differs from every caught-exception flash |
| Handler.BlankPdfReportedAsInvalidJson | app.py:84-96 | a one-page PDF without text and a blank reply give the invalid-JSON flash once corrected, and the `UnboundLocalError` flash as written |
| Handler.AbsoluteNameEscapes | app.py:73 | an absolute filename is saved, and removed, at that very path, outside the upload directory |
| Handler.DistinctNamesDistinctPaths | app.py:73 | different filenames are saved and removed at different paths |

## Left out

- The Gemini client, API key check, system prompt and network call (app.py:1-40): the model's answer is the parameter `model`.
- `json.loads` and `json.dumps` (app.py:92-93): the parameter `loads` stands for both. It gives a value or a `JSONDecodeError` only, so under `Corrected` an other exception from `json.loads` (a `RecursionError` on deeply nested JSON) or from `render_template`, which app.py:99 would flash as "error: ...", is not represented.
- `open(..., encoding="utf-8").read()`, python-docx and PyPDF2 (app.py:79-84, 108, 115): what they return or raise is the `Readers` input.
- Flask routing, templates (a HEAD request reaches `home()` and takes the POST branch; it is `Handler.Post(None)`), `redirect(url_for(...))` and the session that carries flashes: a response is a `Handler.Page`, and flashes are a queue on `Handler.App`.
- `MAX_CONTENT_LENGTH` (app.py:46): the form is parsed lazily, so an oversized body raises `RequestEntityTooLarge` (HTTP 413) when `home()` first reads `request.files` at app.py:57. That is outside the `try` and before any save, so no file is written and nothing is flashed; the model does not represent the 413 answer.
- `os.makedirs` at start-up (app.py:48): the constructor takes the existing files.
- A failing `file.save` (app.py:74): it raises outside the `try`, so Flask answers with an HTTP 500 that the model does not represent.
- Handler.App.Home: files are identified by their path string, so spellings such as "uploads/./x.txt" or "uploads/a/../x.txt" are not identified with the file "uploads/x.txt" they name. An upload named "./x.txt" overwrites and then deletes "uploads/x.txt" at app.py:74 and app.py:104, while the model leaves that path in `files`.
- Concurrent requests that upload the same filename: `Handler.App.Home` runs one request at a time.
- Windows path rules for `os.path`: `PyPath` models the POSIX flavour.
- PyStr.Lower: folds ASCII letters only, because no other character lowers to a letter of ".txt", ".docx" or ".pdf". The accept and reject decisions are exact; lower-cased non-ASCII extensions are not.
- Handler.AsWrittenNeverRenders: quotes the `UnboundLocalError` text of CPython 3.11 and later; older versions word it differently.

## Findings

| source | as written | input that shows it | evidently intended | confidence | as-written member | corrected member |
|---|---|---|---|---|---|---|
| app.py:89 | `cleaned_response = cleaned_response(response.text)` makes the name local to `home()`. The call raises `UnboundLocalError`, the handler at line 99 flashes it, and lines 91-96 never run | any accepted upload whose text extracts and whose model call succeeds, such as "notes.txt" with content "hello" | call the module-level `cleaned_response` and bind the result to another name, so that a cleaned JSON reply is rendered | not executed | Handler.AsWrittenNeverRenders | Handler.CorrectedRendersParsedReply |
