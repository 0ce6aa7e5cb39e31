# Audio transcription upload handler — Dafny model

The service has one endpoint, `POST /upload`. It takes an uploaded audio file
and sends it to a transcription service. It can also archive the raw audio in
a MinIO/S3 bucket. It then stores a markdown document with the transcript in
the same bucket and replies with the document's filename and object key.

This project models the deterministic part of that handler:

- `Naming` (`naming.dfy`) holds the naming and composition rules:
  - `strip("/")` on the configured prefix;
  - the last-dot split `rsplit('.', 1)[0]` that gives the stem;
  - the markdown filename `<timestamp>_<stem>.md`;
  - the markdown object key, which adds `prefix/` only when the prefix is non-empty;
  - the audio key, which always adds `prefix/`;
  - the markdown body `"# Transcription: " + filename + "\n\n" + transcript`.
- `Upload` (`upload.dfy`) holds the decision flow of `upload_audio` as a pure
  function `UploadAudio`. The collaborators are replaced by their outcomes
  (`Outcomes`): the transcription result and the two `put_object` results.
  The function returns the HTTP response and the ordered trace of calls the
  handler made. The trace records every attempted call, including one that
  raised.
- `Wrappers` (`wrappers.dfy`) holds `Option` (an environment variable that may
  be unset) and `Result` (a call that returns a value or raises with a message).

Strings are `seq<char>`. The environment is a `Config` value:
`MINIO_BUCKET`, `MINIO_PREFIX` (read with default `""`) and `UPLOAD_AUDIO`.
`UPLOAD_AUDIO` is on when Python finds it truthy, i.e. set and non-empty. An
empty filename stands for both `None` and `""`, since `not file.filename`
rejects both.

Archived audio always goes to `prefix + "/" + filename` (main.py:58), so an
empty prefix gives a key with a leading `/` (`Naming.AudioKeyLeadingSlash`).

## Model

| member | source | states |
|---|---|---|
| Naming.LStripSlashes | main.py:25 | the left half of `strip("/")`: its result is empty or does not start with '/' |
| Naming.RStripSlashes | main.py:25 | the right half of `strip("/")`: its result is empty or does not end with '/', and keeps the first character |
| Naming.StripSlashes | main.py:25 | after `strip("/")` the prefix neither starts nor ends with '/' |
| Naming.LStripSlashesSplit | main.py:25 | the input is a run of slashes followed by the `lstrip` result |
| Naming.RStripSlashesSplit | main.py:25 | the input is the `rstrip` result followed by a run of slashes |
| Naming.LStripSlashesPadded | main.py:25 | `lstrip` removes exactly the leading slashes in front of a text that does not start with '/' |
| Naming.RStripSlashesPadded | main.py:25 | `rstrip` removes exactly the trailing slashes after a text that does not end with '/' |
| Naming.StripSlashesSlice | main.py:25 | every input is slashes + strip result + slashes |
| Naming.StripSlashesUnique | main.py:25 | a non-empty slash-free core surrounded by any slash runs is exactly what `strip` returns |
| Naming.StripSlashesOfSlashes | main.py:25 | a prefix made only of slashes strips to the empty prefix |
| Naming.StripSlashesFixedPoint | main.py:25 | a slash-free prefix is unchanged by `strip` |
| Naming.StripSlashesIdempotent | main.py:25 | stripping twice gives the same result as stripping once |
| Naming.LastIndexOf | main.py:67 | the index found for `rsplit` is inside the string |
| Naming.LastIndexOfSpec | main.py:67 | the separator is found exactly when it occurs, and no separator follows the index found |
| Naming.RSplitOnce | main.py:67 | `rsplit(c, 1)` returns one or two parts |
| Naming.RSplitOnceSpec | main.py:67 | one part (the whole string) when no `c` occurs; otherwise `s == parts[0] + c + parts[1]` with no `c` in `parts[1]` |
| Naming.RSplitOnceJoin | main.py:67 | joining the parts with the separator gives back the string |
| Naming.RSplitOnceUnique | main.py:67 | the split is at the last separator: `a + c + b` with no `c` in `b` splits into exactly `a` and `b` |
| Naming.StemSpec | main.py:67 | a filename without '.' is its own stem; otherwise `filename == stem + "." + ext` with no '.' in `ext` |
| Naming.StemOfSplit | main.py:67 | the stem of `a + "." + ext` is `a` when `ext` has no '.' |
| Naming.MarkdownFilenameParts | main.py:66-67 | the markdown filename starts with `timestamp + "_"`, ends with ".md", and has the stem between them |
| Naming.MarkdownFilenameShape | main.py:66-67 | with a `%Y%m%d_%H%M%S` timestamp the filename has the shape `YYYYMMDD_HHMMSS_<stem>.md` |
| Naming.MarkdownFilenameOfExtension | main.py:67 | a filename `base.ext` gives `timestamp_base.md`: only the last extension is dropped |
| Naming.MarkdownFilenameCollision | main.py:66-67 | two uploads with the same timestamp get the same markdown filename exactly when their stems agree |
| Naming.ObjectKeyParts | main.py:70-74 | the object key always ends with the markdown filename; it is the filename itself for an empty prefix, and `prefix + "/" + md_filename` otherwise |
| Naming.AudioKeyLeadingSlash | main.py:58 | the audio key starts with '/' exactly when the prefix is empty or starts with '/'; it equals the markdown-style join for a non-empty prefix, and is `"/"` + that join exactly when the prefix is empty |
| Naming.NormalisedKeysStart | main.py:25-74 | for one upload with a `%Y%m%d_%H%M%S` timestamp and a prefix after `strip("/")`, the markdown key never starts with '/'; the audio key does exactly when the prefix is empty |
| Naming.MarkdownContentParts | main.py:68 | the body holds the fixed header, the filename, the blank line and the transcript at fixed offsets |
| Naming.ParseContent | main.py:68 | whatever it reads back, re-rendering it gives the document it read |
| Naming.ParseMarkdownContent | main.py:68 | round trip: for a filename without line breaks, the filename and the transcript are recovered from the body |
| Naming.MarkdownContentRecovery | main.py:68 | for two uploads with the same body, the filenames agree exactly when the transcripts agree |
| Naming.MarkdownContentAmbiguous | main.py:68 | a filename holding a blank line makes two different uploads produce the same body |
| Naming.MarkdownContentExample | main.py:68 | "clip.mp3" with "hello world" gives `"# Transcription: clip.mp3\n\nhello world"` |
| Upload.Prefix | main.py:25 | the configured prefix is slash free, and empty when MINIO_PREFIX is unset |
| Upload.UploadAudio | main.py:34-90 | the status is 400 or 500 on error; the response is a 400 exactly when no collaborator was called |
| Upload.EmptyFilenameRejected | main.py:35-36 | an empty filename gives 400 "No file uploaded" and an empty trace |
| Upload.TranscribedFirst | main.py:45-61 | a named upload makes one transcription call, first, with the fixed model and format and the uploaded bytes; every later call is a storage write |
| Upload.TranscriptionFailure | main.py:45-63 | a failed transcription with message m gives 500 "Transcription failed: " + m and no storage write |
| Upload.ArchivalOffTrace | main.py:55-82 | with archival off there is at most one storage write, and a successful request writes exactly the markdown at `object_key` as "text/markdown" |
| Upload.ArchivalOnTrace | main.py:55-63 | with archival on, the audio is written to `prefix + "/" + filename` as "audio/mpeg" right after transcription; a failure of that write is a "Transcription failed: " 500 with no markdown write |
| Upload.StorageWrites | main.py:55-82 | at most two storage writes; two only with archival on, audio before markdown |
| Upload.MarkdownWrittenIff | main.py:45-82 | the markdown write happens exactly when validation, transcription and any archival write succeed, and it is the last call |
| Upload.MarkdownPutFailure | main.py:76-84 | a failed markdown write with message m gives 500 "Failed to upload to MinIO: " + m |
| Upload.SuccessIff | main.py:86-90 | the request succeeds exactly when every attempted call succeeds; the response's `filename` is the markdown filename and its `path` is the object key, which ends with it |
| Upload.ErrorDetails | main.py:35-84 | every error is 400 "No file uploaded" or a 500 whose detail starts with one of the two failure messages |
| Upload.TestWavScenario | main.py:34-90 | "test.wav" transcribed as "test" with no prefix and archival off gives, for every timestamp `ts`, a success naming `ts + "_test.md"` as both filename and path, and exactly one write: that key, body `"# Transcription: test.wav\n\ntest"`, "text/markdown" |
| Upload.TestWavNaming | main.py:66-68 | for every timestamp `ts` the markdown filename of "test.wav" is `ts + "_test.md"` (`YYYYMMDD_HHMMSS_test.md` for a `strftime` timestamp), and the body for transcript "test" is `"# Transcription: test.wav\n\ntest"` |

## Left out

- FastAPI routing, `UploadFile` reading, `JSONResponse` serialisation and the `/health` handler (main.py:27-32): framework behaviour with no logic.
- The temporary file under `/tmp` (main.py:38-42): filesystem I/O. The uploaded bytes go straight to the calls that use them. A failure to write that file happens outside any `try`, reaches the framework as an unhandled error, and is not modelled.
- The OpenAI transcription call and the boto3/MinIO client (main.py:12-22, 46-51, 56-61, 77-82): network clients. Each is replaced by the outcome of its call. Re-opening the temporary file is part of the transcription outcome, because it sits in the same `try`.
- The body of the audio write: the source passes the file handle that the transcription call has already read. The model records the uploaded bytes and does not model the handle's read position.
- `load_dotenv` and `os.getenv` (main.py:10, 13, 18-25, 55): environment I/O, modelled as the `Config` value.
- `datetime.utcnow().strftime("%Y%m%d_%H%M%S")` (main.py:66): a clock read and a library formatter. The timestamp is a parameter; `Naming.IsTimestamp` describes its format.
- `.encode("utf-8")` on the markdown body (main.py:80): a library codec. The body stays a string.
- `str(e)` of the exceptions: each failed outcome carries its message already as a string.
- Two concurrent uploads of the same filename racing on one temporary path: a concurrency concern outside a single request's logic.
