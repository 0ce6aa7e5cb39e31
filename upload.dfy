/** The decision flow of the `/upload` handler (main.py:34-90) with every
    collaborator made abstract: the transcription service and the object
    store are replaced by the outcomes their calls would have, and the
    handler returns its HTTP response together with the ordered trace of the
    calls it made. */
module Upload {
  import opened Wrappers
  import opened Naming

  newtype byte = x: int | 0 <= x < 256

  /** The payload of a `put_object` call: the uploaded audio bytes, or the
      markdown text (its UTF-8 encoding is not modelled). */
  datatype Body = Bytes(data: seq<byte>) | Text(text: string)

  /** One call to a collaborator, in the order the handler makes it. */
  datatype Call =
    | Transcribe(model: string, audio: seq<byte>, responseFormat: string)
    | PutObject(bucket: string, key: string, body: Body, contentType: string)

  /** The handler's reply: the JSON acknowledgement, or an `HTTPException`. */
  datatype Response =
    | Success(message: string, filename: string, path: string)
    | HttpError(status: int, detail: string)

  /** The environment the handler reads (main.py:24-25 and main.py:55). */
  datatype Config = Config(
    bucket: string,                 // MINIO_BUCKET
    rawPrefix: Option<string>,      // MINIO_PREFIX, read with default ""
    uploadAudio: Option<string>)    // UPLOAD_AUDIO, unset or a string

  /** What the collaborators do on this request; an outcome is consulted only
      when the corresponding call is made. */
  datatype Outcomes = Outcomes(
    transcription: Result<string>,  // the transcription call, including reading the temp file
    audioPut: Result<()>,           // put_object of the raw audio
    markdownPut: Result<()>)        // put_object of the markdown document

  datatype Handled = Handled(response: Response, calls: seq<Call>)

  const TranscriptionModel: string := "gpt-4o-mini-transcribe"
  const TranscriptionFormat: string := "text"
  const AudioContentType: string := "audio/mpeg"
  const MarkdownContentType: string := "text/markdown"
  const NoFileDetail: string := "No file uploaded"
  const TranscriptionFailed: string := "Transcription failed: "
  const StorageFailed: string := "Failed to upload to MinIO: "
  const SuccessMessage: string := "Transcription uploaded successfully"

  /** `bucket_prefix`: MINIO_PREFIX (default "") with slashes stripped (main.py:25). */
  function Prefix(cfg: Config): (p: string)
    ensures SlashFree(p)
    ensures cfg.rawPrefix.None? ==> p == []
  {
    StripSlashes(cfg.rawPrefix.GetOr(""))
  }

  /** `if os.getenv("UPLOAD_AUDIO")`: Python truthiness of the lookup, so an
      unset or empty variable disables archival. */
  predicate ArchivalEnabled(cfg: Config) {
    cfg.uploadAudio.Some? && cfg.uploadAudio.value != ""
  }

  /** The transcription call with the fixed model and response format. */
  function TranscribeCall(content: seq<byte>): Call {
    Transcribe(TranscriptionModel, content, TranscriptionFormat)
  }

  /** The archival put of main.py:56-61. */
  function AudioPut(cfg: Config, filename: string, content: seq<byte>): Call {
    PutObject(cfg.bucket, AudioKey(Prefix(cfg), filename), Bytes(content), AudioContentType)
  }

  /** The markdown put of main.py:77-82. */
  function MarkdownPut(cfg: Config, filename: string, transcript: string, timestamp: string): Call {
    PutObject(cfg.bucket, ObjectKey(Prefix(cfg), MarkdownFilename(timestamp, filename)),
              Text(MarkdownContent(filename, transcript)), MarkdownContentType)
  }

  /** `upload_audio`. An empty filename (None or "") is rejected before
      anything else happens. The transcription call and the optional archival
      put share one `try`, so a failure of either is reported as a failed
      transcription; the markdown put has its own `try`. */
  function UploadAudio(cfg: Config, filename: string, content: seq<byte>,
                       outcomes: Outcomes, timestamp: string): (h: Handled)
    ensures h.response.Success? || h.response.status == 400 || h.response.status == 500
    ensures h.response.HttpError? && h.response.status == 400 <==> h.calls == []
  {
    if filename == "" then
      Handled(HttpError(400, NoFileDetail), [])
    else
      var transcribed := [TranscribeCall(content)];
      match outcomes.transcription
      case Err(m) =>
        Handled(HttpError(500, TranscriptionFailed + m), transcribed)
      case Ok(text) =>
        var archived := transcribed + (if ArchivalEnabled(cfg) then [AudioPut(cfg, filename, content)] else []);
        if ArchivalEnabled(cfg) && outcomes.audioPut.Err? then
          Handled(HttpError(500, TranscriptionFailed + outcomes.audioPut.msg), archived)
        else
          var md := MarkdownFilename(timestamp, filename);
          var key := ObjectKey(Prefix(cfg), md);
          var stored := archived + [MarkdownPut(cfg, filename, text, timestamp)];
          match outcomes.markdownPut
          case Err(m) => Handled(HttpError(500, StorageFailed + m), stored)
          case Ok(_) => Handled(Success(SuccessMessage, md, key), stored)
  }

  /** The `put_object` calls of a trace, in order. */
  function Puts(calls: seq<Call>): (puts: seq<Call>)
    ensures |puts| <= |calls|
  {
    if calls == [] then [] else PutOf(calls[0]) + Puts(calls[1..])
  }

  /** The call itself when it is a storage write, nothing otherwise. */
  function PutOf(c: Call): seq<Call> {
    if c.PutObject? then [c] else []
  }

  lemma {:induction false} PutsAppend(a: seq<Call>, b: seq<Call>)
    ensures Puts(a + b) == Puts(a) + Puts(b)
  {
    if a == [] {
      assert a + b == b;
    } else {
      var ab := a + b;
      assert ab[0] == a[0];
      assert ab[1..] == a[1..] + b;
      PutsAppend(a[1..], b);
      calc {
        Puts(ab);
        PutOf(a[0]) + Puts(a[1..] + b);
        PutOf(a[0]) + (Puts(a[1..]) + Puts(b));
        (PutOf(a[0]) + Puts(a[1..])) + Puts(b);
      }
    }
  }

  /** True when some call of the trace writes a markdown document. */
  predicate WritesMarkdown(calls: seq<Call>) {
    exists i :: 0 <= i < |calls| && calls[i].PutObject? && calls[i].contentType == MarkdownContentType
  }

  /** Validation before anything else (main.py:35-36): an empty filename
      gives 400 "No file uploaded" and no collaborator is called. */
  lemma EmptyFilenameRejected(cfg: Config, content: seq<byte>, outcomes: Outcomes, timestamp: string)
    ensures UploadAudio(cfg, "", content, outcomes, timestamp)
            == Handled(HttpError(400, NoFileDetail), [])
  {
  }

  /** A named upload always makes exactly one transcription call, and makes
      it first, with the fixed model and the uploaded bytes; every later call
      is a storage write (main.py:47-61, main.py:77-82). */
  lemma TranscribedFirst(cfg: Config, filename: string, content: seq<byte>, outcomes: Outcomes, timestamp: string)
    requires filename != ""
    ensures var h := UploadAudio(cfg, filename, content, outcomes, timestamp);
            |h.calls| >= 1 && h.calls[0] == Transcribe(TranscriptionModel, content, TranscriptionFormat) &&
            forall i :: 1 <= i < |h.calls| ==> h.calls[i].PutObject?
  {
  }

  /** A failed transcription is a 500 carrying the message, and nothing is
      written to storage (main.py:45-63). */
  lemma TranscriptionFailure(cfg: Config, filename: string, content: seq<byte>, outcomes: Outcomes, timestamp: string)
    requires filename != "" && outcomes.transcription.Err?
    ensures var h := UploadAudio(cfg, filename, content, outcomes, timestamp);
            h.response == HttpError(500, TranscriptionFailed + outcomes.transcription.msg) &&
            Puts(h.calls) == [] && !WritesMarkdown(h.calls)
  {
  }

  /** With archival off there is at most one storage write, and a successful
      request writes exactly the markdown document under `object_key`. */
  lemma ArchivalOffTrace(cfg: Config, filename: string, content: seq<byte>, outcomes: Outcomes, timestamp: string)
    requires !ArchivalEnabled(cfg)
    ensures var h := UploadAudio(cfg, filename, content, outcomes, timestamp);
            |Puts(h.calls)| <= 1 &&
            (h.response.Success? ==>
              Puts(h.calls) == [PutObject(cfg.bucket, ObjectKey(Prefix(cfg), MarkdownFilename(timestamp, filename)),
                                          Text(MarkdownContent(filename, outcomes.transcription.value)),
                                          MarkdownContentType)])
  {
    var h := UploadAudio(cfg, filename, content, outcomes, timestamp);
    if filename != "" && outcomes.transcription.Ok? {
      PutsAppend([TranscribeCall(content)], [MarkdownPut(cfg, filename, outcomes.transcription.value, timestamp)]);
    }
  }

  /** With archival on and a successful transcription, the audio is written to
      `prefix/filename` as "audio/mpeg" before any markdown write, and a
      failure of that write is reported as a failed transcription with no
      markdown write (main.py:55-63). */
  lemma ArchivalOnTrace(cfg: Config, filename: string, content: seq<byte>, outcomes: Outcomes, timestamp: string)
    requires ArchivalEnabled(cfg) && filename != "" && outcomes.transcription.Ok?
    ensures var h := UploadAudio(cfg, filename, content, outcomes, timestamp);
            |h.calls| >= 2 &&
            h.calls[1] == PutObject(cfg.bucket, Prefix(cfg) + "/" + filename, Bytes(content), AudioContentType) &&
            (outcomes.audioPut.Err? ==>
              h.response == HttpError(500, TranscriptionFailed + outcomes.audioPut.msg) &&
              |h.calls| == 2 && !WritesMarkdown(h.calls)) &&
            (outcomes.audioPut.Ok? ==>
              |h.calls| == 3 && h.calls[2] == MarkdownPut(cfg, filename, outcomes.transcription.value, timestamp))
  {
    var h := UploadAudio(cfg, filename, content, outcomes, timestamp);
    if outcomes.audioPut.Err? {
      assert h.calls[1].contentType == AudioContentType;
    }
  }

  /** The markdown document is written exactly when the request passed
      validation, transcription and (if enabled) archival; it is the last
      call, with the fixed template as its body. */
  lemma MarkdownWrittenIff(cfg: Config, filename: string, content: seq<byte>, outcomes: Outcomes, timestamp: string)
    ensures var h := UploadAudio(cfg, filename, content, outcomes, timestamp);
            WritesMarkdown(h.calls) <==>
              filename != "" && outcomes.transcription.Ok? &&
              (!ArchivalEnabled(cfg) || outcomes.audioPut.Ok?)
    ensures var h := UploadAudio(cfg, filename, content, outcomes, timestamp);
            WritesMarkdown(h.calls) ==>
              h.calls[|h.calls| - 1] == MarkdownPut(cfg, filename, outcomes.transcription.value, timestamp)
  {
    var h := UploadAudio(cfg, filename, content, outcomes, timestamp);
    if filename != "" && outcomes.transcription.Ok? && (!ArchivalEnabled(cfg) || outcomes.audioPut.Ok?) {
      assert h.calls[|h.calls| - 1].contentType == MarkdownContentType;
    }
  }

  /** A request makes zero, one or two storage writes; two only with archival
      on, and then the audio write comes before the markdown write. */
  lemma StorageWrites(cfg: Config, filename: string, content: seq<byte>, outcomes: Outcomes, timestamp: string)
    ensures var h := UploadAudio(cfg, filename, content, outcomes, timestamp);
            |Puts(h.calls)| <= 2 &&
            (|Puts(h.calls)| == 2 ==>
              ArchivalEnabled(cfg) &&
              Puts(h.calls) == [AudioPut(cfg, filename, content),
                                MarkdownPut(cfg, filename, outcomes.transcription.value, timestamp)])
  {
    var h := UploadAudio(cfg, filename, content, outcomes, timestamp);
    if filename != "" {
      var t := [TranscribeCall(content)];
      assert Puts(t) == [] by { assert t[1..] == []; }
      if outcomes.transcription.Ok? {
        var a := if ArchivalEnabled(cfg) then [AudioPut(cfg, filename, content)] else [];
        var m := [MarkdownPut(cfg, filename, outcomes.transcription.value, timestamp)];
        PutsAppend(t, a);
        if ArchivalEnabled(cfg) && outcomes.audioPut.Err? {
          assert h.calls == t + a;
        } else {
          assert h.calls == t + a + m;
          PutsAppend(t + a, m);
        }
      }
    }
  }

  /** A storage failure of the markdown write is a 500 carrying its message
      (main.py:83-84). */
  lemma MarkdownPutFailure(cfg: Config, filename: string, content: seq<byte>, outcomes: Outcomes, timestamp: string)
    requires filename != "" && outcomes.transcription.Ok?
    requires !ArchivalEnabled(cfg) || outcomes.audioPut.Ok?
    requires outcomes.markdownPut.Err?
    ensures UploadAudio(cfg, filename, content, outcomes, timestamp).response
            == HttpError(500, StorageFailed + outcomes.markdownPut.msg)
  {
  }

  /** The request succeeds exactly when every attempted step succeeds, and then
      the response names the markdown filename and its object key
      (main.py:86-90). */
  lemma SuccessIff(cfg: Config, filename: string, content: seq<byte>, outcomes: Outcomes, timestamp: string)
    ensures var h := UploadAudio(cfg, filename, content, outcomes, timestamp);
            h.response.Success? <==>
              filename != "" && outcomes.transcription.Ok? &&
              (!ArchivalEnabled(cfg) || outcomes.audioPut.Ok?) && outcomes.markdownPut.Ok?
    ensures var h := UploadAudio(cfg, filename, content, outcomes, timestamp);
            h.response.Success? ==>
              h.response.message == SuccessMessage &&
              h.response.filename == MarkdownFilename(timestamp, filename) &&
              h.response.path == ObjectKey(Prefix(cfg), h.response.filename) &&
              h.response.path[|h.response.path| - |h.response.filename|..] == h.response.filename
  {
  }

  /** Every error detail is one of the three forms of the handler. */
  lemma ErrorDetails(cfg: Config, filename: string, content: seq<byte>, outcomes: Outcomes, timestamp: string)
    ensures var r := UploadAudio(cfg, filename, content, outcomes, timestamp).response;
            r.HttpError? ==>
              (r.status == 400 && r.detail == NoFileDetail) ||
              (r.status == 500 && exists m :: r.detail == TranscriptionFailed + m) ||
              (r.status == 500 && exists m :: r.detail == StorageFailed + m)
  {
  }

  /** Scenario: "test.wav" transcribed as "test", no prefix, archival off.
      One write, of `<timestamp>_test.md`, whose body starts with
      "# Transcription: test.wav"; the reply names that file as both filename
      and path. */
  lemma TestWavScenario(bucket: string, content: seq<byte>, ts: string)
    ensures var cfg := Config(bucket, None, None);
            var h := UploadAudio(cfg, "test.wav", content, Outcomes(Ok("test"), Ok(()), Ok(())), ts);
            h.response == Success(SuccessMessage, ts + "_test.md", ts + "_test.md") &&
            Puts(h.calls) == [PutObject(bucket, ts + "_test.md",
                                        Text("# Transcription: test.wav\n\ntest"), MarkdownContentType)]
  {
    var cfg := Config(bucket, None, None);
    var md := ts + "_test.md";
    var outcomes := Outcomes(Ok("test"), Ok(()), Ok(()));
    TestWavNaming(ts);
    assert Prefix(cfg) == [] by { StripSlashesOfSlashes(""); }
    assert ObjectKey(Prefix(cfg), md) == md;
    SuccessIff(cfg, "test.wav", content, outcomes, ts);
    ArchivalOffTrace(cfg, "test.wav", content, outcomes, ts);
  }

  /** The names and the body of the "test.wav" scenario, for any timestamp;
      with a `strftime` timestamp the name reads `YYYYMMDD_HHMMSS_test.md`. */
  lemma TestWavNaming(ts: string)
    ensures MarkdownFilename(ts, "test.wav") == ts + "_test.md"
    ensures MarkdownContent("test.wav", "test") == "# Transcription: test.wav\n\ntest"
    ensures IsTimestamp(ts) ==>
              var md := ts + "_test.md";
              |md| == 23 && IsTimestamp(md[..15]) && md[15..] == "_test.md"
  {
    var f := "test.wav";
    assert f == f[..4] + "." + f[5..];
    assert f[..4] == "test" && f[5..] == "wav";
    StemOfSplit("test", "wav");
    if IsTimestamp(ts) {
      MarkdownFilenameShape(ts, "test.wav");
    }
  }
}
