/** The upload checks `home()` runs on a POST before anything is written:
    the `file` field must be present, its filename non-empty, and the
    lower-cased `splitext` suffix one of the allowed extensions. */
module Upload {
  import opened Wrappers
  import opened PyStr
  import opened PyPath

  /** `app.config["UPLOAD_EXTENSIONS"]`. */
  const UPLOAD_EXTENSIONS: seq<string> := [".txt", ".docx", ".pdf"]

  /** The outcome of the checks, in the order `home()` makes them. */
  datatype Validation = NoFilePart | NoSelectedFile | ExtNotAllowed | Accepted(ext: string)

  /** `os.path.splitext(filename)[1].lower()`. */
  function FileExt(filename: string): string {
    Lower(SplitExt(filename).1)
  }

  /** The checks on `request.files`: `file` is `None` when the form has no
      `file` field, and otherwise the filename the client sent. */
  function Validate(file: Option<string>): (v: Validation)
    ensures v.NoFilePart? <==> file.None?
    ensures v.NoSelectedFile? <==> file == Some("")
    ensures v.Accepted? ==> file.Some? && v.ext in UPLOAD_EXTENSIONS && v.ext == FileExt(file.value)
    ensures v.ExtNotAllowed? <==> file.Some? && file.value != "" && FileExt(file.value) !in UPLOAD_EXTENSIONS
  {
    match file
    case None => NoFilePart
    case Some(name) =>
      if name == "" then NoSelectedFile
      else
        var ext := FileExt(name);
        if ext !in UPLOAD_EXTENSIONS then ExtNotAllowed else Accepted(ext)
  }

  /** The flash message of a rejected upload. */
  function RejectionMessage(v: Validation): string
    requires !v.Accepted?
  {
    match v
    case NoFilePart => "No file part"
    case NoSelectedFile => "No selected file"
    case ExtNotAllowed => "File extension not allowed"
  }

  /** An accepted filename has a real extension, and its last characters are,
      up to case, the allowed extension it was accepted with. */
  lemma AcceptedNameEndsWithExt(name: string)
    requires Validate(Some(name)).Accepted?
    ensures var ext := Validate(Some(name)).ext;
      HasExtension(name) && |ext| <= |name| && Lower(name[|name| - |ext|..]) == ext
  {
    var (root, suffix) := SplitExt(name);
    SplitExtParts(name);
    assert suffix != [] by {
      assert Lower([]) !in UPLOAD_EXTENSIONS;
    }
    SplitExtFindsExtension(name);
    assert name[|name| - |suffix|..] == suffix by {
      assert name == root + suffix;
    }
  }

  /** A non-empty filename without an extension (no dot in its last component
      after a character that is not a dot, as in "notes" or ".pdf") is refused. */
  lemma NoExtensionRejected(name: string)
    requires name != "" && !HasExtension(name)
    ensures Validate(Some(name)) == ExtNotAllowed
  {
    SplitExtFindsExtension(name);
    assert FileExt(name) == [];
  }

  /** The extension test ignores case: lower-casing the filename first does
      not change the decision. */
  lemma ValidateIgnoresCase(name: string)
    ensures Validate(Some(Lower(name))) == Validate(Some(name))
  {
    var ext := SplitExt(name).1;
    SplitExtLower(name);
    LowerIdempotent(ext);
    assert FileExt(Lower(name)) == FileExt(name);
    assert |Lower(name)| == |name|;
  }

  /** The decision for a non-empty filename depends on its `splitext` suffix only. */
  lemma DecidedBySuffix(name: string, suffix: string)
    requires name != "" && SplitExt(name).1 == suffix
    ensures Validate(Some(name))
         == if Lower(suffix) in UPLOAD_EXTENSIONS then Accepted(Lower(suffix)) else ExtNotAllowed
  {
  }

  /** "X.PDF" is accepted as ".pdf". */
  lemma UpperCaseAccepted(name: string)
    requires name == "X.PDF"
    ensures Validate(Some(name)) == Accepted(".pdf")
  {
    assert name == "X" + ".PDF";
    SplitAtExt("X", ".PDF");
    assert Lower(".PDF") == ".pdf";
    DecidedBySuffix(name, ".PDF");
  }

  /** "a.tar.PDF" is judged by its last suffix only, and accepted as ".pdf". */
  lemma LastSuffixOnly(name: string)
    requires name == "a.tar.PDF"
    ensures Validate(Some(name)) == Accepted(".pdf")
  {
    assert name == "a.tar" + ".PDF";
    SplitAtExt("a.tar", ".PDF");
    assert Lower(".PDF") == ".pdf";
    DecidedBySuffix(name, ".PDF");
  }

  /** "notes" has no dot at all and is refused. */
  lemma PlainNameRejected(name: string)
    requires name == "notes"
    ensures Validate(Some(name)) == ExtNotAllowed
  {
    assert '.' !in name;
    assert SplitExt(name).1 == "";
  }

  /** A hidden name, one leading dot and no other, has no extension and is
      refused: ".pdf" is not a PDF. */
  lemma HiddenNameRejected(name: string)
    requires name != [] && name[0] == '.' && '.' !in name[1..]
    ensures Validate(Some(name)) == ExtNotAllowed
  {
    forall j | 1 <= j < |name| ensures name[j] != '.' {
      assert name[j] == name[1..][j - 1];
    }
    assert !HasExtension(name);
    NoExtensionRejected(name);
  }

  /** ".pdf" is refused. */
  lemma DotFileRejected(name: string)
    requires name == ".pdf"
    ensures Validate(Some(name)) == ExtNotAllowed
  {
    assert name[1..] == "pdf";
    HiddenNameRejected(name);
  }
}
