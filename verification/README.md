# PDF-to-Word upload handler, modelled in Dafny

This project models the request-handling core of a small Flask service. The
service converts an uploaded PDF into a Word (DOCX) document. The core is
`server.py`, and the model has three parts:

- **`allowed_file`** — the upload validator. A name passes when it contains
  a `.` and the text after its last `.`, lowercased, is in the allow-list
  `{'pdf'}`.
- **`convert_pdf_to_docx`** — the conversion wrapper. It builds the output
  path `outputs/<output_name>.docx` and runs the pdf2docx `Converter`
  (construct, `convert`, `close`). It returns that path, or `None` if any of
  those calls raises. No exception escapes it.
- **the `/convert` route handler** — an ordered chain of early returns:
  - no `file` part → 400 `No file part`
  - empty filename → 400 `No selected file`
  - disallowed extension → 400 `Invalid file type. Only PDF is allowed.`
  - otherwise the upload is saved under `uploads/`, converted, and the DOCX is
    sent back as an attachment; a failed conversion answers 500
    `Failed to convert file`, and any exception inside the `try` answers 500
    with the exception's text.

Files:

- `wrappers.dfy` — `Option`, for Python's `None`.
- `pytext.dfy` — the `str` operations the validator uses: the last
  occurrence of a character, `rsplit(sep, 1)`, and lowercasing.
- `posixpath.dfy` — `os.path.join` (two components) and `os.path.splitext`,
  as they behave on a POSIX host.
- `server.dfy` — the constants, the validator, the wrapper, the handler, and
  the properties proved about them.

All of the core is pure (no loops, no state updated in place), so it is
modelled with functions and lemmas. Each external call the handler makes is an
input of the model, held in `Server.Env`:

- `secure_filename` is an arbitrary `string -> string` function.
- `file.save`, the three converter calls and `send_file` each come with an
  abstract outcome: the call returns, or it raises with some message.

The handler returns the response together with the list of external calls it
attempted, in order. That list is what the model uses to state that a
rejected upload is never saved, that the converter is left unclosed when
conversion raises, and that the steps happen in a fixed order.

The code does not release the converter on every path: it calls
`cv.close()` only after `cv.convert` returns (server.py:32-34), so
`ConverterLeftOpenOnFailure` proves that `close` is never reached when
conversion raises.

## Model

| member | source | states |
|---|---|---|
| `PyText.LastIndex` | server.py:22 | finds the last occurrence of a character: `None` exactly when it is absent; otherwise that index holds the character and none follows it |
| `PyText.RSplitOnce` | server.py:22 | `rsplit(sep, 1)` gives one part (the whole string) exactly when `sep` is absent; otherwise two parts that rebuild the string around a `sep`, the second part free of `sep` |
| `PyText.SplitAtLastUnique` | server.py:22 | a string splits around its last separator in only one way |
| `PyText.LastIndexOfJoin` | server.py:22 | in `a + sep + b` with no `sep` in `b`, the last `sep` is at `|a|` |
| `PyText.LowerChar` | server.py:22 | lowers one character: `A`–`Z` go to the letter 32 code points on, in `a`–`z`; every other character is unchanged |
| `PyText.LowerAscii` | server.py:22 | lowercasing keeps the length; `LowerAsciiIsPdf` characterises when the result is `pdf` |
| `PosixPath.RFind` | server.py:64 | `str.rfind`: -1 exactly when the character is absent; otherwise an index holding it with none after it |
| `PosixPath.SplitExt` | server.py:64 | `splitext` puts the path back together: root plus extension is the path; `SplitExtParts`, `SplitExtOfDottedName` and `SplitExtOfLeadingDotName` prove where it cuts |
| `PosixPath.Join` | server.py:28 | `join(a, b)` ends with `b`; an absolute `b` replaces `a`; otherwise the result starts with `a`, and is `a/b` when `a` is non-empty without a trailing `/` |
| `PosixPath.SplitExtParts` | server.py:64 | `splitext` only cuts: root plus extension is the path, and the extension is empty or one `.` followed by neither `.` nor `/` |
| `PosixPath.SplitExtOfDottedName` | server.py:64 | a `/`-free name `stem.ext` (no `.` in `ext`, stem not all dots) splits into `stem` and `.ext` |
| `PosixPath.SplitExtOfLeadingDotName` | server.py:64 | a `/`-free name whose characters before its last `.` are all dots (such as `.pdf`) has an empty extension |
| `Server.AllowedFile` | server.py:21-22 | a name without `.` is rejected; an accepted name has a `.` fourth from the end |
| `Server.LowerAsciiIsPdf` | server.py:15-22 | the lowercased text equals `pdf` exactly when its three characters lower to `p`, `d`, `f` |
| `Server.AllowedFileIffEndsInPdf` | server.py:15-22 | `allowed_file` accepts exactly the names ending in `.` plus some ASCII casing of `pdf` (both directions) |
| `Server.AllowedFileDependsOnlyOnExtension` | server.py:22 | for `stem.ext` with no `.` in `ext`, the verdict is "`ext` lowers to `pdf`", whatever the stem |
| `Server.AllowedFileIgnoresCase` | server.py:22 | two names equal up to ASCII case get the same verdict |
| `Server.AcceptedSamples` | server.py:22 | `a.PDF` and `.pdf` are accepted |
| `Server.LastDotSamples` | server.py:22 | `x.tar.pdf` is accepted and `a.pdf.exe` is rejected: only the last `.` counts |
| `Server.RejectedSamples` | server.py:22 | `pdf`, `a.pd` and the empty name are rejected |
| `Server.UploadPath` | server.py:57-58 | the upload is saved as `uploads/<sanitized name>` when the sanitized name is not absolute |
| `Server.BaseName` | server.py:64 | the output base is a prefix of the sanitized name (its root without the extension) |
| `Server.OutputPath` | server.py:28 | the output path always ends in `.docx` |
| `Server.ConvertPdfToDocx` | server.py:25-40 | never raises. It returns a path exactly when every converter call returns, and that path is `join(OUTPUT_FOLDER, name + ".docx")`, which is truthy. The calls made are a prefix of construct, convert, close. Construct is always attempted. `convert` is reached exactly when construct returned. `close` is reached only if construct and convert both returned |
| `Server.ConvertedFileLocation` | server.py:28 | for a relative name, the converted file is `outputs/<name>.docx` |
| `Server.SaveAndConvert` | server.py:55-87 | the `try` block answers 200 or 500, always attempts the save, and its calls are a prefix of save, construct, convert, close, send |
| `Server.Convert` | server.py:42-91 | every answer is 200, 400 or 500. The answer is 400 exactly when no external call was made. Without a `file` part nothing is called. Otherwise the calls are a prefix of the fixed pipeline |
| `Server.MissingFilePart` | server.py:44-46 | no `file` part: 400 `No file part`, no call, whatever the environment |
| `Server.EmptyFilename` | server.py:50-52 | empty name: 400 `No selected file` (not the extension error), no call |
| `Server.DisallowedExtension` | server.py:54-91 | non-empty name rejected by `allowed_file`: 400 `Invalid file type. Only PDF is allowed.`, nothing saved or converted |
| `Server.BadRequestIffClientError` | server.py:44-91 | 400 exactly when the part is missing, the name is empty or the extension is not allowed |
| `Server.SaveFailure` | server.py:55-87 | `file.save` raises: 500 with the exception's text; only the save was attempted |
| `Server.ConversionFailure` | server.py:81-83 | conversion fails: 500 `Failed to convert file` (the converter's message is not passed on); the calls stop before `send_file` |
| `Server.ConverterLeftOpenOnFailure` | server.py:32-34 | when `cv.convert` raises, the converter was opened and `cv.close()` is never called |
| `Server.SendFailure` | server.py:73-87 | `send_file` raises: 500 with the exception's text, after every other call |
| `Server.SuccessIff` | server.py:42-91 | 200 exactly when the request is valid and save, conversion and send all return |
| `Server.SuccessResponse` | server.py:63-78 | a 200 answer is an attachment of `outputs/<base>.docx`, downloaded as `<base>.docx` (base = sanitized name without extension), with the DOCX mimetype; every call was made, in order |
| `Server.PdfUploadScenario` | server.py:54-78 | uploading `<stem>.<any casing of pdf>`, kept as is by the sanitizer, with every call returning, yields `outputs/<stem>.docx` offered as `<stem>.docx` |
| `Server.ReportScenario` | server.py:54-78 | `report.PDF` yields `outputs/report.docx`, offered as `report.docx` |

## Left out

- Flask routing, CORS, `app.run`, `jsonify`, logging, and the streaming done by `send_file`: framework plumbing and I/O. A response is its status, error text, or attachment fields.
- The filesystem: `file.save`, the converter's writes and `send_file` are abstract outcomes (return or raise). The model does not track files on disk, so it says nothing about leftover uploads or outputs.
- pdf2docx `Converter` internals: foreign code, modelled only as which of its three calls raises.
- werkzeug `secure_filename`: its source is not part of this model. It is an arbitrary function, and nothing is claimed about path traversal.
- `os.path.join`/`os.path.splitext` are modelled for a POSIX host; the Windows variants (`\` separators, drive letters) are not.
- `PyText.LowerAscii`: lowers only `A`–`Z`, where Python's `str.lower()` covers all of Unicode and can change the length (U+0130 lowers to two characters). The verdict of `allowed_file` is the same: the only characters whose `lower()` contains `p`, `d` or `f` are `P`, `D`, `F`, `p`, `d`, `f`, and no character lowers to the empty string, so `LowerAscii(ext) == "pdf"` exactly when Python's `ext.lower() == 'pdf'`.
- `Server.FileStorage`: the filename is always a string. Multipart parsing puts only parts with a filename into `request.files`, so werkzeug's `None` filename does not reach this handler.
- `static/script.js`: browser UI code, not part of this model.
- Concurrency between requests: the handler keeps no shared state.
