/** `home()`, the one route of the application: a GET shows the upload form;
    a POST validates the upload, saves it under its own name in the upload
    directory, extracts its text, asks the language model for a mindmap,
    cleans and parses the reply, and always deletes the saved file. */
module Handler {
  import opened Wrappers
  import opened PyStr
  import opened PyPath
  import opened Sanitizer
  import opened Upload
  import opened Extract

  /** `app.config["UPLOAD_PATH"]`. */
  const UPLOAD_PATH := "uploads"

  /** `str(e)` of the `UnboundLocalError` raised by line 89 (CPython 3.11 and
      later word it this way). */
  const UNBOUND_LOCAL := "cannot access local variable 'cleaned_response' where it is not associated with a value"

  /** The flash message of a reply that is not JSON. */
  const INVALID_JSON := "Error: Invalid JSON response"

  /** Which text of line 89 runs. `AsWritten` is the application as it is:
      the assignment makes `cleaned_response` a local name of `home()`, so
      reading it to make the call raises before it is bound. `Corrected`
      calls the module-level `cleaned_response` as evidently intended. */
  datatype Revision = AsWritten | Corrected

  /** A request to "/": a GET, or any other method, which takes the POST
      branch of `home()`, with the filename its `file` field carries (`None`
      when there is no `file` field). A HEAD request, which Flask routes to
      `home()` too, is `Post(None)`. */
  datatype Request = Get | Post(file: Option<string>)

  /** What the client gets back: the bare form, the form with a mindmap
      (the JSON text handed to the template), or a redirect to the form. */
  datatype Page = Form | FormWithMindmap(mindmapData: string) | RedirectHome

  /** How the `try` block of a saved upload ends: an exception caught by
      `except Exception` (with its text), the `JSONDecodeError` branch, or a
      parsed mindmap ready to render. */
  datatype Attempt = Raised(error: string) | InvalidJson | Parsed(mindmapData: string)

  /** What `model.generate_content(text)` returns: reading its `text`
      property yields the reply, or raises (as it does for a blocked reply). */
  datatype Response = Response(text: Result<string>)

  /** `os.path.join(app.config["UPLOAD_PATH"], file.filename)`. */
  function UploadPath(filename: string): string {
    JoinPath(UPLOAD_PATH, filename)
  }

  /** The `try` block for a validated extension `ext`. The language model is
      `model` (its response, or the text of what the call raised) and `loads`
      stands for `json.dumps(json.loads(s))`, `None` when `json.loads` raises
      `JSONDecodeError`. */
  function TryBlock(revision: Revision, ext: string, file: Readers,
                    model: string -> Result<Response>, loads: string -> Option<string>): Attempt
    requires ext in UPLOAD_EXTENSIONS
  {
    match ExtractText(ext, file)
    case Failure(e) => Raised(e)
    case Success(text) =>
      match model(text)
      case Failure(e) => Raised(e)
      case Success(response) =>
        // As written, loading the unbound local name raises before the
        // argument `response.text` is evaluated.
        if revision == AsWritten then Raised(UNBOUND_LOCAL)
        else
          match response.text
          case Failure(e) => Raised(e)
          case Success(reply) =>
            match CleanedResponse(reply)
            case Failure(e) => Raised(e)
            case Success(cleaned) =>
              match loads(cleaned)
              case None => InvalidJson
              case Some(data) => Parsed(data)
  }

  /** The flash messages an attempt leaves. */
  function FlashesOf(a: Attempt): seq<string> {
    match a
    case Raised(e) => ["error: " + e]
    case InvalidJson => [INVALID_JSON]
    case Parsed(_) => []
  }

  /** The page an attempt answers with. */
  function PageOf(a: Attempt): Page {
    match a
    case Parsed(data) => FormWithMindmap(data)
    case _ => RedirectHome
  }

  /** The server's state that outlives one request: the files the process
      can write, by path (those of the upload directory, and any other path a
      client filename can reach, such as an absolute one), and the flash
      messages queued for the next page. */
  class App {
    const revision: Revision
    var files: set<string>
    var flashes: seq<string>
    /** The paths of the uploads this server has handled. */
    ghost var served: set<string>

    /** No handled upload is left behind. */
    ghost predicate Valid()
      reads this
    {
      served !! files
    }

    /** A server started over a file system that already holds `existing`. */
    constructor(revision: Revision, existing: set<string>)
      ensures Valid()
      ensures this.revision == revision && files == existing && flashes == [] && served == {}
    {
      this.revision := revision;
      files := existing;
      flashes := [];
      served := {};
    }

    /** One request to "/". `file`, `model` and `loads` say what the libraries,
        the language model and the JSON parser do with this request's data. */
    method Home(request: Request, file: Readers,
                model: string -> Result<Response>, loads: string -> Option<string>)
      returns (page: Page)
      requires Valid()
      modifies this
      ensures Valid()
      ensures request.Get? ==>
        page == Form && files == old(files) && flashes == old(flashes) && served == old(served)
      ensures request.Post? && !Validate(request.file).Accepted? ==>
        && page == RedirectHome
        && files == old(files)
        && served == old(served)
        && flashes == old(flashes) + [RejectionMessage(Validate(request.file))]
      ensures request.Post? && Validate(request.file).Accepted? ==>
        var path := UploadPath(request.file.value);
        var attempt := TryBlock(revision, Validate(request.file).ext, file, model, loads);
        && files == old(files) - {path}
        && served == old(served) + {path}
        && flashes == old(flashes) + FlashesOf(attempt)
        && page == PageOf(attempt)
    {
      if request.Get? {
        return Form;
      }
      var v := Validate(request.file);
      if !v.Accepted? {
        flashes := flashes + [RejectionMessage(v)];
        return RedirectHome;
      }
      var path := UploadPath(request.file.value);
      // file.save(file_path): a file of that name is overwritten.
      files := files + {path};
      served := served + {path};
      var attempt := TryBlock(revision, v.ext, file, model, loads);
      flashes := flashes + FlashesOf(attempt);
      page := PageOf(attempt);
      // finally: remove the saved file if it still exists.
      if path in files {
        files := files - {path};
      }
    }
  }

  /** As written, no upload is ever rendered and the JSON branch is never
      reached: every accepted upload ends in an `error: ...` flash, whose text
      is the extraction error, the error of the model call, or the
      `UnboundLocalError` of line 89 once both of those succeed, whatever
      reading the response's `text` would have done. */
  lemma AsWrittenNeverRenders(ext: string, file: Readers,
                              model: string -> Result<Response>, loads: string -> Option<string>)
    requires ext in UPLOAD_EXTENSIONS
    ensures var a := TryBlock(AsWritten, ext, file, model, loads);
      && PageOf(a) == RedirectHome
      && a.Raised?
      && (ExtractText(ext, file).Failure? ==> a.error == ExtractText(ext, file).error)
      && (ExtractText(ext, file).Success? && model(ExtractText(ext, file).value).Failure? ==>
            a.error == model(ExtractText(ext, file).value).error)
      && (ExtractText(ext, file).Success? && model(ExtractText(ext, file).value).Success? ==>
            FlashesOf(a) == ["error: " + UNBOUND_LOCAL])
  {
  }

  /** A blocked reply, whose `text` raises, is reported as that error once
      line 89 is corrected; as written the `UnboundLocalError` comes first. */
  lemma BlockedReplyReported(ext: string, file: Readers,
                             model: string -> Result<Response>, loads: string -> Option<string>,
                             text: string, e: string)
    requires ext in UPLOAD_EXTENSIONS
    requires ExtractText(ext, file) == Success(text) && model(text) == Success(Response(Failure(e)))
    ensures FlashesOf(TryBlock(Corrected, ext, file, model, loads)) == ["error: " + e]
    ensures FlashesOf(TryBlock(AsWritten, ext, file, model, loads)) == ["error: " + UNBOUND_LOCAL]
  {
  }

  /** With line 89 corrected, a reply the sanitizer accepts is rendered when
      it parses and reported as invalid JSON when it does not. */
  lemma CorrectedRendersParsedReply(ext: string, file: Readers,
                                    model: string -> Result<Response>, loads: string -> Option<string>,
                                    text: string, reply: string)
    requires ext in UPLOAD_EXTENSIONS
    requires ExtractText(ext, file) == Success(text) && model(text) == Success(Response(Success(reply)))
    requires CleanedResponse(reply).Success?
    ensures var a := TryBlock(Corrected, ext, file, model, loads);
      var cleaned := CleanedResponse(reply).value;
      && (loads(cleaned).Some? ==> a == Parsed(loads(cleaned).value)
                                   && PageOf(a) == FormWithMindmap(loads(cleaned).value)
                                   && FlashesOf(a) == [])
      && (loads(cleaned).None? ==> FlashesOf(a) == [INVALID_JSON] && PageOf(a) == RedirectHome)
  {
  }

  /** With line 89 corrected, an unfenced reply is parsed after stripping,
      and a fenced one after dropping its first and last line. */
  lemma CorrectedParsesWhatTheSanitizerKeeps(ext: string, file: Readers,
                                             model: string -> Result<Response>, loads: string -> Option<string>,
                                             text: string, reply: string, tag: string, body: string)
    requires ext in UPLOAD_EXTENSIONS
    requires ExtractText(ext, file) == Success(text) && model(text) == Success(Response(Success(reply)))
    ensures !StartsWith(Strip(reply), FENCE) ==>
      TryBlock(Corrected, ext, file, model, loads)
        == if loads(Strip(reply)).Some? then Parsed(loads(Strip(reply)).value) else InvalidJson
    ensures reply == FENCE + tag + "\n" + body + "\n" + FENCE && '\n' !in tag ==>
      TryBlock(Corrected, ext, file, model, loads)
        == if loads(Strip(body)).Some? then Parsed(loads(Strip(body)).value) else InvalidJson
  {
    if !StartsWith(Strip(reply), FENCE) {
      UnfencedIsStripped(reply);
    }
    if reply == FENCE + tag + "\n" + body + "\n" + FENCE && '\n' !in tag {
      FencedBlock(tag, body);
    }
  }

  /** Extraction errors and model-call errors are caught by the same handler:
      the same exception text gives the same flash, whichever stage raised it. */
  lemma ExtractionAndModelErrorsLookAlike(revision: Revision, ext: string, loads: string -> Option<string>,
                                          broken: Readers, readable: Readers,
                                          model: string -> Result<Response>, failing: string -> Result<Response>,
                                          e: string)
    requires ext in UPLOAD_EXTENSIONS
    requires ExtractText(ext, broken) == Failure(e)
    requires ExtractText(ext, readable).Success? && failing(ExtractText(ext, readable).value) == Failure(e)
    ensures FlashesOf(TryBlock(revision, ext, broken, model, loads))
         == FlashesOf(TryBlock(revision, ext, readable, failing, loads))
         == ["error: " + e]
  {
  }

  /** The invalid-JSON message can never be mistaken for a caught exception. */
  lemma InvalidJsonIsDistinct(e: string)
    ensures INVALID_JSON != "error: " + e
  {
    assert INVALID_JSON[0] == 'E';
    assert ("error: " + e)[0] == 'e';
  }

  /** A PDF whose single page has no text layer extracts to "", and with line
      89 corrected a blank reply to it is reported as invalid JSON, not
      rendered; as written it ends in the `UnboundLocalError` flash. */
  lemma BlankPdfReportedAsInvalidJson(file: Readers, model: string -> Result<Response>,
                                      loads: string -> Option<string>, reply: string)
    requires file.pages == Success([""])
    requires model("") == Success(Response(Success(reply))) && Strip(reply) == ""
    requires loads("") == None
    ensures FlashesOf(TryBlock(Corrected, ".pdf", file, model, loads)) == [INVALID_JSON]
    ensures FlashesOf(TryBlock(AsWritten, ".pdf", file, model, loads)) == ["error: " + UNBOUND_LOCAL]
  {
    OnePieceVerbatim(".pdf", file, "");
    UnfencedIsStripped(reply);
  }

  /** `os.path.join` returns an absolute filename unchanged: the upload is
      saved, and removed, at that path, outside the upload directory. */
  lemma AbsoluteNameEscapes(filename: string)
    requires StartsWith(filename, "/")
    ensures UploadPath(filename) == filename
    ensures !StartsWith(UploadPath(filename), UPLOAD_PATH + "/")
  {
    assert filename[..1] == "/";
    assert (UPLOAD_PATH + "/")[0] == 'u' && filename[0] == '/';
  }

  /** Different filenames give different path strings to save and remove. */
  lemma DistinctNamesDistinctPaths(a: string, b: string)
    requires a != b
    ensures UploadPath(a) != UploadPath(b)
  {
    if UploadPath(a) == UploadPath(b) {
      JoinPathInjective(UPLOAD_PATH, a, b);
    }
  }
}
