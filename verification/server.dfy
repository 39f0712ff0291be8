/**
  The `/convert` endpoint of the PDF-to-Word service: the upload validator
  `allowed_file`, the conversion wrapper `convert_pdf_to_docx`, and the chain
  of early returns in the route handler that maps a request to a response.

  Everything outside the handler's own logic is a parameter of the model:
  `secure_filename` is an arbitrary string function, and `file.save`, the
  three calls on the pdf2docx `Converter` and `send_file` are abstract
  outcomes (they return, or they raise an exception with some message).
  The handler returns the response together with the list of those external
  calls it attempted, in order.
*/
module Server {
  import opened Wrappers
  import opened PyText
  import opened PosixPath

  const UPLOAD_FOLDER: string := "uploads"
  const OUTPUT_FOLDER: string := "outputs"
  const ALLOWED_EXTENSIONS: set<string> := {"pdf"}
  const DOCX_MIMETYPE: string := "application/vnd.openxmlformats-officedocument.wordprocessingml.document"

  const NO_FILE_PART: string := "No file part"
  const NO_SELECTED_FILE: string := "No selected file"
  const INVALID_FILE_TYPE: string := "Invalid file type. Only PDF is allowed."
  const CONVERSION_FAILED: string := "Failed to convert file"

  // ---------------------------------------------------------------------
  // Upload validation
  // ---------------------------------------------------------------------

  /**
    `allowed_file`: the name contains a `.` and the text after its last `.`,
    lowercased, is an allowed extension.
  */
  function AllowedFile(filename: string): (ok: bool)
    ensures '.' !in filename ==> !ok
    ensures ok ==> |filename| >= 4 && filename[|filename| - 4] == '.'
  {
    '.' in filename && LowerAscii(RSplitOnce(filename, '.')[1]) in ALLOWED_EXTENSIONS
  }

  /** Three characters that lower, one by one, to `p`, `d`, `f`. */
  predicate LowersToPdf(t: string)
  {
    |t| == 3 && LowerChar(t[0]) == 'p' && LowerChar(t[1]) == 'd' && LowerChar(t[2]) == 'f'
  }

  /** The independent description of an accepted name: it ends in `.pdf`, in any ASCII case. */
  predicate EndsInPdf(filename: string)
  {
    |filename| >= 4 && filename[|filename| - 4] == '.' && LowersToPdf(filename[|filename| - 3..])
  }

  /** Lowering a string gives `pdf` exactly when its characters lower to `p`, `d`, `f`. */
  lemma LowerAsciiIsPdf(t: string)
    ensures LowerAscii(t) == "pdf" <==> LowersToPdf(t)
  {
    if LowerAscii(t) == "pdf" {
      assert LowerAscii(t)[0] == 'p' && LowerAscii(t)[1] == 'd' && LowerAscii(t)[2] == 'f';
    }
    if LowersToPdf(t) {
      assert LowerAscii(t) == ['p', 'd', 'f'];
    }
  }

  /** Three characters that lower to `pdf` hold no `.`. */
  lemma PdfHasNoDot(t: string)
    requires LowersToPdf(t)
    ensures '.' !in t
  {
  }

  /** `allowed_file` accepts exactly the names that end in `.pdf`, case-insensitively. */
  lemma {:induction false} AllowedFileIffEndsInPdf(filename: string)
    ensures AllowedFile(filename) <==> EndsInPdf(filename)
  {
    var n := |filename|;
    if AllowedFile(filename) {
      var parts := RSplitOnce(filename, '.');
      assert EndsInPdf(filename) by {
        LowerAsciiIsPdf(parts[1]);
        assert filename[n - 3..] == parts[1];
      }
    }
    if EndsInPdf(filename) {
      var tail := filename[n - 3..];
      assert RSplitOnce(filename, '.')[1] == tail by {
        PdfHasNoDot(tail);
        assert filename == filename[..n - 4] + ['.'] + tail;
        LastIndexOfJoin(filename[..n - 4], '.', tail);
      }
      LowerAsciiIsPdf(tail);
    }
  }

  /**
    Only the text after the last `.` matters: a name `stem.ext` with no `.`
    in `ext` is accepted exactly when `ext` lowers to `pdf`, whatever `stem` is.
  */
  lemma {:induction false} AllowedFileDependsOnlyOnExtension(stem: string, ext: string)
    requires '.' !in ext
    ensures AllowedFile(stem + "." + ext) <==> LowerAscii(ext) == "pdf"
  {
    var filename := stem + "." + ext;
    LastIndexOfJoin(stem, '.', ext);
    assert filename[|stem| + 1..] == ext;
  }

  /** The test is case-insensitive: names equal up to ASCII case are accepted alike. */
  lemma {:induction false} AllowedFileIgnoresCase(a: string, b: string)
    requires LowerAscii(a) == LowerAscii(b)
    ensures AllowedFile(a) <==> AllowedFile(b)
  {
    AllowedFileIffEndsInPdf(a);
    AllowedFileIffEndsInPdf(b);
    var n := |a|;
    if n >= 4 {
      forall k | n - 4 <= k < n ensures LowerChar(a[k]) == LowerChar(b[k]) {
        assert LowerAscii(a)[k] == LowerAscii(b)[k];
      }
      assert a[n - 3..][0] == a[n - 3] && a[n - 3..][1] == a[n - 2] && a[n - 3..][2] == a[n - 1];
      assert b[n - 3..][0] == b[n - 3] && b[n - 3..][1] == b[n - 2] && b[n - 3..][2] == b[n - 1];
    }
  }

  /** Sample names that pass: mixed case, and a bare `.pdf` (its stem is empty). */
  lemma AcceptedSamples()
    ensures AllowedFile("a.PDF") && AllowedFile(".pdf")
  {
    AllowedFileIffEndsInPdf("a.PDF");
    AllowedFileIffEndsInPdf(".pdf");
  }

  /** Only the last dot counts: `x.tar.pdf` passes and `a.pdf.exe` does not. */
  lemma LastDotSamples()
    ensures AllowedFile("x.tar.pdf") && !AllowedFile("a.pdf.exe")
  {
    AllowedFileIffEndsInPdf("x.tar.pdf");
    AllowedFileIffEndsInPdf("a.pdf.exe");
  }

  /** Sample names that fail: no dot at all, a short extension, an empty name. */
  lemma RejectedSamples()
    ensures !AllowedFile("pdf") && !AllowedFile("a.pd") && !AllowedFile("")
  {
  }

  // ---------------------------------------------------------------------
  // External calls, as abstract outcomes
  // ---------------------------------------------------------------------

  /** What an external call did: it returned, or it raised an exception whose `str` is `message`. */
  datatype Outcome = Returns | Raises(message: string)

  /** The three calls made on the pdf2docx converter, in order. */
  datatype Stage = Construct | ConvertPages | Close

  /** How a run of the converter goes: every call returns, or the call at `stage` raises. */
  datatype ConverterRun = Completes | RaisesAt(stage: Stage, message: string)

  /** An external call the handler attempted (including the one that raised, if any). */
  datatype Effect =
    | SaveUpload(path: string)          // file.save(pdf_path)
    | OpenConverter(pdfPath: string)    // Converter(pdf_path)
    | RunConverter(outputPath: string)  // cv.convert(docx_output_path, start=0, end=None)
    | CloseConverter                    // cv.close()
    | SendFile(path: string)            // send_file(docx_file, ...)

  /** Python truthiness of an optional string: `None` and `''` are false. */
  predicate Truthy(o: Option<string>)
  {
    o.Some? && o.value != ""
  }

  // ---------------------------------------------------------------------
  // The conversion wrapper
  // ---------------------------------------------------------------------

  /** What `convert_pdf_to_docx` returns, and the converter calls it made. */
  datatype Conversion = Conversion(output: Option<string>, calls: seq<Effect>)

  /** The converter calls of a run in which every call returns. */
  function ConverterCalls(pdfPath: string, outputPath: string): seq<Effect>
  {
    [OpenConverter(pdfPath), RunConverter(outputPath), CloseConverter]
  }

  /**
    `convert_pdf_to_docx`: never raises; returns the path `<OUTPUT_FOLDER>/<output_name>.docx`
    when every converter call returns and `None` when any of them raises. The
    converter is closed only when construction and conversion both returned.
  */
  function ConvertPdfToDocx(pdfPath: string, outputName: string, run: ConverterRun): (c: Conversion)
    ensures c.output.Some? <==> run.Completes?
    ensures c.output.Some? ==> c.output.value == Join(OUTPUT_FOLDER, outputName + ".docx")
    ensures Truthy(c.output) <==> c.output.Some?
    ensures c.calls <= ConverterCalls(pdfPath, Join(OUTPUT_FOLDER, outputName + ".docx"))
    ensures OpenConverter(pdfPath) in c.calls
    ensures RunConverter(Join(OUTPUT_FOLDER, outputName + ".docx")) in c.calls
        <==> !(run.RaisesAt? && run.stage == Construct)
    ensures CloseConverter in c.calls <==> run.Completes? || run.stage == Close
  {
    var docxOutputPath := Join(OUTPUT_FOLDER, outputName + ".docx");
    var all := ConverterCalls(pdfPath, docxOutputPath);
    match run
    case Completes => Conversion(Some(docxOutputPath), all)
    case RaisesAt(Construct, _) => Conversion(None, [OpenConverter(pdfPath)])
    case RaisesAt(ConvertPages, _) => Conversion(None, [OpenConverter(pdfPath), RunConverter(docxOutputPath)])
    case RaisesAt(Close, _) => Conversion(None, all)
  }

  /** When a relative name is given, the converted file lands in `outputs/` and ends in `.docx`. */
  lemma ConvertedFileLocation(pdfPath: string, outputName: string)
    requires !(|outputName| > 0 && outputName[0] == '/')
    ensures ConvertPdfToDocx(pdfPath, outputName, Completes).output
         == Some(OUTPUT_FOLDER + "/" + outputName + ".docx")
  {
    var name := outputName + ".docx";
    assert name[0] != '/' by {
      if outputName == [] { assert name == ".docx"; }
    }
    assert OUTPUT_FOLDER[|OUTPUT_FOLDER| - 1] == 's';
    assert OUTPUT_FOLDER + "/" + name == OUTPUT_FOLDER + "/" + outputName + ".docx";
  }

  // ---------------------------------------------------------------------
  // The /convert route handler
  // ---------------------------------------------------------------------

  /** An uploaded file part; multipart parsing always gives it a (possibly empty) name. */
  datatype FileStorage = FileStorage(filename: string)

  /** The part of a request the handler reads: its uploaded files by form field. */
  datatype Request = Request(files: map<string, FileStorage>)

  /**
    Everything outside the handler: `secure_filename`, and what `file.save`,
    the converter and `send_file` do when called.
  */
  datatype Env = Env(secureFilename: string -> string, save: Outcome, converter: ConverterRun, send: Outcome)

  /** A JSON `{"error": ...}` body with a status code, or the converted file sent as an attachment. */
  datatype Response =
    | JsonError(code: int, error: string)
    | Attachment(path: string, downloadName: string, mimetype: string)
  {
    /** The HTTP status: `send_file` answers 200. */
    function Status(): int
    {
      if Attachment? then 200 else code
    }
  }

  /** The response, and the external calls made to produce it, in order. */
  datatype Handled = Handled(response: Response, calls: seq<Effect>)

  /** FileStorage truthiness: a file part is true when its name is non-empty. */
  predicate FileTruthy(file: FileStorage)
  {
    file.filename != ""
  }

  /** Where the upload of `filename` is saved. */
  function UploadPath(filename: string, env: Env): (path: string)
    ensures var name := env.secureFilename(filename);
      !(|name| > 0 && name[0] == '/') ==> path == UPLOAD_FOLDER + "/" + name
  {
    Join(UPLOAD_FOLDER, env.secureFilename(filename))
  }

  /** The base name: the sanitized name without its extension. */
  function BaseName(filename: string, env: Env): (base: string)
    ensures |base| <= |env.secureFilename(filename)|
    ensures base == env.secureFilename(filename)[..|base|]
  {
    SplitExt(env.secureFilename(filename)).0
  }

  /** Where the converted file of `filename` is written. */
  function OutputPath(filename: string, env: Env): (path: string)
    ensures |path| >= 5 && path[|path| - 5..] == ".docx"
  {
    Join(OUTPUT_FOLDER, BaseName(filename, env) + ".docx")
  }

  /** Every external call the handler can make for `filename`, in the order it makes them. */
  function Pipeline(filename: string, env: Env): seq<Effect>
  {
    [SaveUpload(UploadPath(filename, env))]
      + ConverterCalls(UploadPath(filename, env), OutputPath(filename, env))
      + [SendFile(OutputPath(filename, env))]
  }

  /** The body of the handler's `try` block, for a file that passed validation. */
  function SaveAndConvert(file: FileStorage, env: Env): (h: Handled)
    ensures h.calls <= Pipeline(file.filename, env) && |h.calls| > 0
    ensures h.response.Status() in {200, 500}
  {
    var filename := env.secureFilename(file.filename);
    var pdfPath := Join(UPLOAD_FOLDER, filename);
    match env.save
    case Raises(e) => Handled(JsonError(500, e), [SaveUpload(pdfPath)])
    case Returns =>
      var baseName := SplitExt(filename).0;
      var converted := ConvertPdfToDocx(pdfPath, baseName, env.converter);
      var calls := [SaveUpload(pdfPath)] + converted.calls;
      if Truthy(converted.output) then
        var docxFile := converted.output.value;
        var sent := calls + [SendFile(docxFile)];
        match env.send
        case Raises(e) => Handled(JsonError(500, e), sent)
        case Returns => Handled(Attachment(docxFile, baseName + ".docx", DOCX_MIMETYPE), sent)
      else
        Handled(JsonError(500, CONVERSION_FAILED), calls)
  }

  /**
    The `/convert` handler: the checks run in order (file part, empty name,
    extension) and the first that fails answers 400 before any external call;
    a valid upload is saved, converted and sent, and any failure there answers 500.
  */
  function Convert(req: Request, env: Env): (h: Handled)
    ensures h.response.Status() in {200, 400, 500}
    ensures h.response.Status() == 400 <==> h.calls == []
    ensures "file" !in req.files ==> h.calls == []
    ensures "file" in req.files ==> h.calls <= Pipeline(req.files["file"].filename, env)
  {
    if "file" !in req.files then
      Handled(JsonError(400, NO_FILE_PART), [])
    else
      var file := req.files["file"];
      if file.filename == "" then
        Handled(JsonError(400, NO_SELECTED_FILE), [])
      else if FileTruthy(file) && AllowedFile(file.filename) then
        SaveAndConvert(file, env)
      else
        Handled(JsonError(400, INVALID_FILE_TYPE), [])
  }

  // ---------------------------------------------------------------------
  // Properties of the handler
  // ---------------------------------------------------------------------

  /** The request itself is at fault: no file part, an empty name, or a name not ending in `.pdf`. */
  predicate ClientError(req: Request)
  {
    "file" !in req.files || req.files["file"].filename == "" || !AllowedFile(req.files["file"].filename)
  }

  /** The name of the file sent in the request's `file` part. */
  function UploadedName(req: Request): string
    requires "file" in req.files
  {
    req.files["file"].filename
  }

  /** Every external call returns. */
  predicate AllCallsReturn(env: Env)
  {
    env.save.Returns? && env.converter.Completes? && env.send.Returns?
  }

  /** No `file` part: 400 "No file part", checked before anything else, whatever the environment. */
  lemma MissingFilePart(req: Request, env: Env)
    requires "file" !in req.files
    ensures Convert(req, env) == Handled(JsonError(400, NO_FILE_PART), [])
  {
  }

  /** An empty name: 400 "No selected file", decided before the extension test. */
  lemma EmptyFilename(req: Request, env: Env)
    requires "file" in req.files && UploadedName(req) == ""
    ensures Convert(req, env) == Handled(JsonError(400, NO_SELECTED_FILE), [])
  {
  }

  /** A non-empty name that `allowed_file` rejects: 400, and nothing is saved or converted. */
  lemma DisallowedExtension(req: Request, env: Env)
    requires "file" in req.files && UploadedName(req) != "" && !AllowedFile(UploadedName(req))
    ensures Convert(req, env) == Handled(JsonError(400, INVALID_FILE_TYPE), [])
  {
  }

  /** The handler answers 400 exactly for the requests that are at fault. */
  lemma {:induction false} BadRequestIffClientError(req: Request, env: Env)
    ensures Convert(req, env).response.Status() == 400 <==> ClientError(req)
  {
    if !ClientError(req) {
      var h := SaveAndConvert(req.files["file"], env);
      assert h.response.Status() in {200, 500};
    }
  }

  /** A valid upload whose save raises: 500 with the exception's text, and the converter is never run. */
  lemma SaveFailure(req: Request, env: Env)
    requires !ClientError(req) && env.save.Raises?
    ensures Convert(req, env) == Handled(JsonError(500, env.save.message), [SaveUpload(UploadPath(UploadedName(req), env))])
  {
  }

  /**
    A valid upload whose conversion raises: 500 "Failed to convert file" (the
    converter's own message is not passed on), and the pipeline stops before
    `send_file`: the calls made are a proper prefix of it.
  */
  lemma ConversionFailure(req: Request, env: Env)
    requires !ClientError(req) && env.save.Returns? && env.converter.RaisesAt?
    ensures Convert(req, env).response == JsonError(500, CONVERSION_FAILED)
    ensures Convert(req, env).calls < Pipeline(UploadedName(req), env)
  {
    var name := UploadedName(req);
    var c := ConvertPdfToDocx(UploadPath(name, env), BaseName(name, env), env.converter);
    assert Convert(req, env).calls == [SaveUpload(UploadPath(name, env))] + c.calls;
  }

  /**
    When `cv.convert` raises, the converter was opened and `cv.close()` is never
    called: the wrapper does not release it on that path.
  */
  lemma ConverterLeftOpenOnFailure(req: Request, env: Env)
    requires !ClientError(req) && env.save.Returns? && env.converter.RaisesAt? && env.converter.stage == ConvertPages
    ensures OpenConverter(UploadPath(UploadedName(req), env)) in Convert(req, env).calls
    ensures CloseConverter !in Convert(req, env).calls
  {
    var c := ConvertPdfToDocx(UploadPath(UploadedName(req), env), BaseName(UploadedName(req), env), env.converter);
    assert Convert(req, env).calls == [SaveUpload(UploadPath(UploadedName(req), env))] + c.calls;
  }

  /** A converted file that `send_file` cannot send: 500 with the exception's text, after every other call. */
  lemma SendFailure(req: Request, env: Env)
    requires !ClientError(req) && env.save.Returns? && env.converter.Completes? && env.send.Raises?
    ensures Convert(req, env) == Handled(JsonError(500, env.send.message), Pipeline(UploadedName(req), env))
  {
  }

  /** The handler answers 200 exactly when the request is valid and every external call returns. */
  lemma {:induction false} SuccessIff(req: Request, env: Env)
    ensures Convert(req, env).response.Status() == 200 <==> !ClientError(req) && AllCallsReturn(env)
  {
    BadRequestIffClientError(req, env);
    if !ClientError(req) && !AllCallsReturn(env) {
      if env.save.Returns? && env.converter.Completes? {
        SendFailure(req, env);
      } else if env.save.Returns? {
        ConversionFailure(req, env);
      } else {
        SaveFailure(req, env);
      }
    }
  }

  /**
    A 200 answer sends, as an attachment with the DOCX mimetype, the file under
    `outputs` named `<base name>.docx`, and offers it for download under that
    same name; every external call was made, in order.
  */
  lemma SuccessResponse(req: Request, env: Env)
    requires Convert(req, env).response.Status() == 200
    ensures "file" in req.files
    ensures var download := BaseName(UploadedName(req), env) + ".docx";
      Convert(req, env) == Handled(Attachment(Join(OUTPUT_FOLDER, download), download, DOCX_MIMETYPE),
                                   Pipeline(UploadedName(req), env))
  {
    SuccessIff(req, env);
    var name := UploadedName(req);
    var c := ConvertPdfToDocx(UploadPath(name, env), BaseName(name, env), env.converter);
    assert c.output == Some(OutputPath(name, env));
    assert Convert(req, env) == SaveAndConvert(req.files["file"], env);
  }

  /**
    Uploading `<stem>.<ext>` with `ext` some casing of `pdf`, a stem that is
    more than dots, no `/`, and a sanitizer that keeps the name: when every
    call returns, the answer is `outputs/<stem>.docx`, offered as `<stem>.docx`.
  */
  lemma {:induction false} PdfUploadScenario(stem: string, ext: string, env: Env)
    requires LowerAscii(ext) == "pdf" && !AllDots(stem) && '/' !in stem + "." + ext
    requires env.secureFilename(stem + "." + ext) == stem + "." + ext && AllCallsReturn(env)
    ensures Convert(Request(map["file" := FileStorage(stem + "." + ext)]), env).response
         == Attachment(OUTPUT_FOLDER + "/" + stem + ".docx", stem + ".docx", DOCX_MIMETYPE)
  {
    var name := stem + "." + ext;
    var req := Request(map["file" := FileStorage(name)]);
    LowerAsciiIsPdf(ext);
    PdfHasNoDot(ext);
    AllowedFileDependsOnlyOnExtension(stem, ext);
    assert !ClientError(req) && UploadedName(req) == name;
    SuccessIff(req, env);
    SuccessResponse(req, env);
    SplitExtOfDottedName(stem, ext);
    assert BaseName(name, env) == stem;
    assert stem[0] != '/' by { assert stem[0] in stem + "." + ext; }
    ConvertedFileLocation(UploadPath(name, env), stem);
  }

  /**
    The mixed-case sample: `report.PDF` is answered with `outputs/report.docx`,
    offered as `report.docx`. The name is written `"report" + "." + "PDF"` so
    that the proof goes through `PdfUploadScenario` instead of evaluating the
    string functions on a literal, which costs the solver far more.
  */
  lemma ReportScenario(env: Env)
    requires env.secureFilename("report" + "." + "PDF") == "report" + "." + "PDF" && AllCallsReturn(env)
    ensures Convert(Request(map["file" := FileStorage("report" + "." + "PDF")]), env).response
         == Attachment(OUTPUT_FOLDER + "/" + "report" + ".docx", "report" + ".docx", DOCX_MIMETYPE)
  {
    LowerAsciiIsPdf("PDF");
    assert !AllDots("report") by { assert "report"[0] in "report"; }
    PdfUploadScenario("report", "PDF", env);
  }
}
