/** The object-naming and document-composition rules of the upload handler:
    the prefix normalisation, the last-dot split of the upload filename, the
    markdown filename, the two object keys and the markdown body. */
module Naming {
  import opened Wrappers

  /** True when every character of `s` is a slash. */
  predicate AllSlashes(s: string) {
    forall i :: 0 <= i < |s| ==> s[i] == '/'
  }

  /** True when `s` neither starts nor ends with a slash. */
  predicate SlashFree(s: string) {
    s == [] || (s[0] != '/' && s[|s| - 1] != '/')
  }

  /** Python's `s.lstrip("/")`: drops every leading slash. */
  function LStripSlashes(s: string): (r: string)
    ensures r == [] || r[0] != '/'
    decreases |s|
  {
    if |s| > 0 && s[0] == '/' then LStripSlashes(s[1..]) else s
  }

  /** Python's `s.rstrip("/")`: drops every trailing slash. */
  function RStripSlashes(s: string): (r: string)
    ensures r == [] || r[|r| - 1] != '/'
    ensures |r| <= |s| && (r == [] || r[0] == s[0])
    decreases |s|
  {
    if |s| > 0 && s[|s| - 1] == '/' then RStripSlashes(s[..|s| - 1]) else s
  }

  /** Python's `s.strip("/")` (main.py:25). */
  function StripSlashes(s: string): (r: string)
    ensures SlashFree(r)
  {
    var l := LStripSlashes(s);
    var r := RStripSlashes(l);
    if r == [] then r else assert r[0] == l[0]; r
  }

  /** `lstrip` removes exactly a run of slashes from the front. */
  lemma {:induction false} LStripSlashesSplit(s: string) returns (p: string)
    ensures AllSlashes(p) && s == p + LStripSlashes(s)
    decreases |s|
  {
    if |s| > 0 && s[0] == '/' {
      var p' := LStripSlashesSplit(s[1..]);
      p := [s[0]] + p';
      assert s == [s[0]] + s[1..];
    } else {
      p := [];
    }
  }

  /** `rstrip` removes exactly a run of slashes from the back. */
  lemma {:induction false} RStripSlashesSplit(s: string) returns (q: string)
    ensures AllSlashes(q) && s == RStripSlashes(s) + q
    decreases |s|
  {
    if |s| > 0 && s[|s| - 1] == '/' {
      var q' := RStripSlashesSplit(s[..|s| - 1]);
      q := q' + [s[|s| - 1]];
      assert s == s[..|s| - 1] + [s[|s| - 1]];
    } else {
      q := [];
    }
  }

  /** `lstrip` of slashes followed by a text not starting with a slash gives
      that text back. */
  lemma {:induction false} LStripSlashesPadded(p: string, t: string)
    requires AllSlashes(p) && (t == [] || t[0] != '/')
    ensures LStripSlashes(p + t) == t
    decreases |p|
  {
    if p == [] {
      assert p + t == t;
    } else {
      assert (p + t)[1..] == p[1..] + t;
      LStripSlashesPadded(p[1..], t);
    }
  }

  /** `rstrip` of a text not ending in a slash followed by slashes gives that
      text back. */
  lemma {:induction false} RStripSlashesPadded(t: string, q: string)
    requires AllSlashes(q) && (t == [] || t[|t| - 1] != '/')
    ensures RStripSlashes(t + q) == t
    decreases |q|
  {
    if q == [] {
      assert t + q == t;
    } else {
      assert (t + q)[..|t + q| - 1] == t + q[..|q| - 1];
      RStripSlashesPadded(t, q[..|q| - 1]);
    }
  }

  /** What `strip("/")` keeps: `s` is a run of slashes `p`, the result, and
      another run of slashes `q`. */
  lemma StripSlashesSlice(s: string) returns (p: string, q: string)
    ensures AllSlashes(p) && AllSlashes(q)
    ensures s == p + StripSlashes(s) + q
  {
    p := LStripSlashesSplit(s);
    q := RStripSlashesSplit(LStripSlashes(s));
  }

  /** Stripping a string that is already slash free changes nothing. */
  lemma StripSlashesFixedPoint(s: string)
    requires SlashFree(s)
    ensures StripSlashes(s) == s
  {
    LStripSlashesPadded([], s);
    RStripSlashesPadded(s, []);
    assert [] + s == s && s + [] == s;
  }

  /** `strip("/")` is idempotent. */
  lemma StripSlashesIdempotent(s: string)
    ensures StripSlashes(StripSlashes(s)) == StripSlashes(s)
  {
    StripSlashesFixedPoint(StripSlashes(s));
  }

  /** A string made only of slashes strips to the empty string. */
  lemma StripSlashesOfSlashes(s: string)
    requires AllSlashes(s)
    ensures StripSlashes(s) == []
  {
    LStripSlashesPadded(s, []);
    assert s + [] == s;
  }

  /** The characterisation of `strip("/")`: whatever slash runs `p` and `q`
      surround a slash-free, non-empty core `m`, the core is what comes back. */
  lemma StripSlashesUnique(p: string, m: string, q: string)
    requires AllSlashes(p) && AllSlashes(q)
    requires m != [] && SlashFree(m)
    ensures StripSlashes(p + m + q) == m
  {
    assert p + m + q == p + (m + q);
    LStripSlashesPadded(p, m + q);
    RStripSlashesPadded(m, q);
  }

  /** The index of the last occurrence of `c` in `s`, if there is one. */
  function LastIndexOf(s: string, c: char): (r: Option<nat>)
    ensures r.Some? ==> r.value < |s|
    decreases |s|
  {
    if |s| == 0 then None
    else if s[|s| - 1] == c then Some(|s| - 1)
    else LastIndexOf(s[..|s| - 1], c)
  }

  /** `LastIndexOf` finds `c` exactly when `s` holds it, and no `c` follows
      the index it returns. */
  lemma {:induction false} LastIndexOfSpec(s: string, c: char)
    ensures LastIndexOf(s, c).None? <==> c !in s
    ensures LastIndexOf(s, c).Some? ==>
      var k := LastIndexOf(s, c).value; s[k] == c && c !in s[k + 1..]
    decreases |s|
  {
    if |s| > 0 && s[|s| - 1] != c {
      var init := s[..|s| - 1];
      LastIndexOfSpec(init, c);
      assert s == init + [s[|s| - 1]];
      var r := LastIndexOf(init, c);
      if r.Some? {
        assert s[r.value + 1..] == init[r.value + 1..] + [s[|s| - 1]];
      }
    }
  }

  /** Python's `s.rsplit(c, 1)`: one part when `c` does not occur, otherwise
      the text before and the text after the LAST occurrence of `c`. */
  function RSplitOnce(s: string, c: char): (parts: seq<string>)
    ensures |parts| == 1 || |parts| == 2
  {
    match LastIndexOf(s, c)
    case None => [s]
    case Some(k) => [s[..k], s[k + 1..]]
  }

  /** One part, the whole string, when there is no separator; otherwise two
      parts around a separator, the second free of separators. */
  lemma RSplitOnceSpec(s: string, c: char)
    ensures var parts := RSplitOnce(s, c);
            (|parts| == 1 <==> c !in s) &&
            (|parts| == 1 ==> parts[0] == s) &&
            (|parts| == 2 ==> s == parts[0] + [c] + parts[1] && c !in parts[1])
  {
    LastIndexOfSpec(s, c);
    match LastIndexOf(s, c)
    case None =>
    case Some(k) =>
      assert s == s[..k] + [c] + s[k + 1..];
  }

  /** Joining the parts with the separator gives back the original string. */
  lemma RSplitOnceJoin(s: string, c: char)
    ensures var parts := RSplitOnce(s, c);
            (if |parts| == 1 then parts[0] else parts[0] + [c] + parts[1]) == s
  {
    RSplitOnceSpec(s, c);
  }

  /** The split happens at the last separator: whenever `s` is `a`, `c`, `b`
      with no `c` in `b`, the parts are exactly `a` and `b`. */
  lemma RSplitOnceUnique(s: string, c: char, a: string, b: string)
    requires s == a + [c] + b && c !in b
    ensures RSplitOnce(s, c) == [a, b]
  {
    assert s[|a|] == c;
    LastIndexOfSpec(s, c);
    var k := LastIndexOf(s, c).value;
    assert k == |a|;
    assert s[..k] == a && s[k + 1..] == b;
  }

  /** The stem of an upload filename: `filename.rsplit('.', 1)[0]` (main.py:67). */
  function Stem(filename: string): string {
    RSplitOnce(filename, '.')[0]
  }

  /** Without a dot the stem is the whole filename; with one, the filename is
      the stem, a dot and an extension that holds no dot. */
  lemma StemSpec(filename: string)
    ensures '.' !in filename ==> Stem(filename) == filename
    ensures '.' in filename ==>
      exists ext :: filename == Stem(filename) + "." + ext && '.' !in ext
  {
    RSplitOnceSpec(filename, '.');
    var parts := RSplitOnce(filename, '.');
    if |parts| == 2 {
      assert filename == parts[0] + "." + parts[1];
    }
  }

  /** The stem is everything before the last dot. */
  lemma StemOfSplit(a: string, ext: string)
    requires '.' !in ext
    ensures Stem(a + "." + ext) == a
  {
    RSplitOnceUnique(a + "." + ext, '.', a, ext);
  }

  /** Upload timestamps come from `strftime("%Y%m%d_%H%M%S")`: eight digits,
      an underscore, six digits. */
  predicate IsTimestamp(ts: string) {
    |ts| == 15 && ts[8] == '_' &&
    forall i :: 0 <= i < 15 && i != 8 ==> '0' <= ts[i] <= '9'
  }

  /** The markdown filename `<timestamp>_<stem>.md` (main.py:67). */
  function MarkdownFilename(timestamp: string, filename: string): string {
    timestamp + "_" + Stem(filename) + ".md"
  }

  /** The markdown filename starts with the timestamp and an underscore, ends
      in ".md", and the stem is what lies between the two. */
  lemma MarkdownFilenameParts(timestamp: string, filename: string)
    ensures var md := MarkdownFilename(timestamp, filename);
            |md| == |timestamp| + 1 + |Stem(filename)| + 3 &&
            md[..|timestamp| + 1] == timestamp + "_" &&
            md[|md| - 3..] == ".md" &&
            md[|timestamp| + 1..|md| - 3] == Stem(filename)
  {
    var md := MarkdownFilename(timestamp, filename);
    assert md == (timestamp + "_") + Stem(filename) + ".md";
  }

  /** Two uploads with the same timestamp get the same markdown filename
      exactly when their stems agree, so two uploads in the same second with the
      same stem collide on one key. */
  lemma MarkdownFilenameCollision(ts: string, f1: string, f2: string)
    ensures MarkdownFilename(ts, f1) == MarkdownFilename(ts, f2) <==> Stem(f1) == Stem(f2)
  {
    if MarkdownFilename(ts, f1) == MarkdownFilename(ts, f2) {
      MarkdownFilenameParts(ts, f1);
      MarkdownFilenameParts(ts, f2);
      var md := MarkdownFilename(ts, f1);
      assert Stem(f1) == md[|ts| + 1..|md| - 3] == Stem(f2);
    }
  }

  /** With a `strftime` timestamp, the markdown filename has the shape
      `YYYYMMDD_HHMMSS_<stem>.md`. */
  lemma MarkdownFilenameShape(ts: string, filename: string)
    requires IsTimestamp(ts)
    ensures var md := MarkdownFilename(ts, filename);
            |md| >= 19 && IsTimestamp(md[..15]) && md[15] == '_' &&
            md[16..|md| - 3] == Stem(filename) && md[|md| - 3..] == ".md"
  {
    var md := MarkdownFilename(ts, filename);
    MarkdownFilenameParts(ts, filename);
    assert md[..15] == md[..16][..15] == ts;
  }

  /** `rsplit` leaves a dot-free filename whole, so its markdown filename is
      `<timestamp>_<filename>.md`; otherwise the last extension is dropped. */
  lemma MarkdownFilenameOfExtension(ts: string, base: string, ext: string)
    requires '.' !in ext
    ensures MarkdownFilename(ts, base + "." + ext) == ts + "_" + base + ".md"
  {
    StemOfSplit(base, ext);
  }

  /** The key of the markdown object (main.py:71-74): the markdown filename,
      under `prefix/` only when the prefix is non-empty. */
  function ObjectKey(prefix: string, md: string): string {
    if prefix != [] then prefix + "/" + md else md
  }

  /** The markdown key always ends with the markdown filename; a non-empty
      prefix comes first, followed by one slash. */
  lemma ObjectKeyParts(prefix: string, md: string)
    ensures var key := ObjectKey(prefix, md);
            |key| >= |md| && key[|key| - |md|..] == md &&
            (prefix == [] ==> key == md) &&
            (prefix != [] ==>
              |key| == |prefix| + 1 + |md| && key[..|prefix|] == prefix && key[|prefix|] == '/')
  {
    if prefix != [] {
      var key := ObjectKey(prefix, md);
      assert key == (prefix + "/") + md;
    }
  }

  /** The key of the archived audio (main.py:58): `prefix + "/"` is prepended
      whatever the prefix, so an empty prefix yields a key starting with '/'. */
  function AudioKey(prefix: string, filename: string): string {
    prefix + "/" + filename
  }

  /** With a normalised prefix the audio key and the markdown-style join agree
      unless the prefix is empty, where the audio key gains a leading slash. */
  lemma AudioKeyLeadingSlash(prefix: string, filename: string)
    ensures AudioKey(prefix, filename)[0] == '/' <==> prefix == [] || prefix[0] == '/'
    ensures prefix != [] ==> AudioKey(prefix, filename) == ObjectKey(prefix, filename)
    ensures prefix == [] ==> AudioKey(prefix, filename) == "/" + ObjectKey(prefix, filename)
  {
    var key := AudioKey(prefix, filename);
    if prefix != [] {
      assert key[0] == prefix[0];
    }
  }

  /** For the keys of one upload, with a prefix normalised by `strip("/")` and
      a `strftime` timestamp, the markdown key never starts with a slash and
      the audio key does exactly when the prefix is empty. */
  lemma NormalisedKeysStart(raw: string, ts: string, filename: string)
    requires IsTimestamp(ts)
    ensures var p := StripSlashes(raw);
            (ObjectKey(p, MarkdownFilename(ts, filename))[0] != '/') &&
            (AudioKey(p, filename)[0] == '/' <==> p == [])
  {
    var p := StripSlashes(raw);
    var md := MarkdownFilename(ts, filename);
    MarkdownFilenameParts(ts, filename);
    assert md[0] == md[..|ts| + 1][0] == ts[0];
    AudioKeyLeadingSlash(p, filename);
    if p != [] {
      assert ObjectKey(p, md)[0] == p[0];
    }
  }

  const Header: string := "# Transcription: "
  const Separator: string := "\n\n"

  /** The markdown document (main.py:68): a fixed heading naming the upload,
      a blank line, then the transcript verbatim. */
  function MarkdownContent(filename: string, transcript: string): string {
    Header + filename + Separator + transcript
  }

  /** Each part of the document can be read back at a fixed offset. */
  lemma MarkdownContentParts(filename: string, transcript: string)
    ensures var body := MarkdownContent(filename, transcript);
            |body| == |Header| + |filename| + |Separator| + |transcript| &&
            body[..|Header|] == Header &&
            body[|Header|..|Header| + |filename|] == filename &&
            body[|Header| + |filename|..|Header| + |filename| + 2] == Separator &&
            body[|Header| + |filename| + 2..] == transcript
  {
    var body := MarkdownContent(filename, transcript);
    assert body == Header + (filename + (Separator + transcript));
  }

  /** Reads a markdown document back: the heading, then the filename up to the
      first line break, then the blank line, then the transcript. */
  function ParseContent(body: string): (r: Option<(string, string)>)
    ensures r.Some? ==> '\n' !in r.value.0 && MarkdownContent(r.value.0, r.value.1) == body
  {
    if |body| < |Header| || body[..|Header|] != Header then None
    else
      var rest := body[|Header|..];
      match FirstIndexOf(rest, '\n')
      case None => None
      case Some(i) =>
        if i + 1 < |rest| && rest[i + 1] == '\n' then
          SplitAtSeparator(body, |Header|, i);
          Some((rest[..i], rest[i + 2..]))
        else None
  }

  /** A text with a blank line at offset `i` after position `h` is the text
      up to `h`, the part before the blank line, the blank line, the rest. */
  lemma SplitAtSeparator(body: string, h: nat, i: nat)
    requires h + i + 1 < |body| && body[h + i] == '\n' && body[h + i + 1] == '\n'
    ensures body == body[..h] + body[h..][..i] + Separator + body[h..][i + 2..]
  {
    var rest := body[h..];
    assert rest == rest[..i] + Separator + rest[i + 2..];
    assert body == body[..h] + rest;
  }

  /** The index of the first occurrence of `c` in `s`, if there is one. */
  function FirstIndexOf(s: string, c: char): (r: Option<nat>)
    ensures r.None? <==> c !in s
    ensures r.Some? ==> r.value < |s| && s[r.value] == c && c !in s[..r.value]
    decreases |s|
  {
    if |s| == 0 then None
    else if s[0] == c then Some(0)
    else
      var r := FirstIndexOf(s[1..], c);
      if r.Some? then
        assert s[..r.value + 1] == [s[0]] + s[1..][..r.value];
        Some(r.value + 1)
      else r
  }

  /** Round trip: for a filename without line breaks, both the filename and
      the transcript are recovered from the document. */
  lemma ParseMarkdownContent(filename: string, transcript: string)
    requires '\n' !in filename
    ensures ParseContent(MarkdownContent(filename, transcript)) == Some((filename, transcript))
  {
    var body := MarkdownContent(filename, transcript);
    MarkdownContentParts(filename, transcript);
    var rest := body[|Header|..];
    assert rest == filename + Separator + transcript;
    var i := FirstIndexOf(rest, '\n');
    assert rest[|filename|] == '\n';
    assert i == Some(|filename|);
    assert rest[..|filename|] == filename;
    assert rest[|filename| + 2..] == transcript;
  }

  /** Once the filename is known, the transcript is recovered from the document
      whatever characters either contains; and the other way around. */
  lemma MarkdownContentRecovery(f1: string, t1: string, f2: string, t2: string)
    requires MarkdownContent(f1, t1) == MarkdownContent(f2, t2)
    ensures f1 == f2 <==> t1 == t2
  {
    var b := MarkdownContent(f1, t1);
    MarkdownContentParts(f1, t1);
    MarkdownContentParts(f2, t2);
    if f1 == f2 {
      assert t1 == b[|Header| + |f1| + 2..] == t2;
    }
    if t1 == t2 {
      assert |f1| == |f2|;
      assert f1 == b[|Header|..|Header| + |f1|] == f2;
    }
  }

  /** Without that knowledge the document is ambiguous: a filename holding a
      blank line makes two uploads produce the same body. */
  lemma MarkdownContentAmbiguous()
    ensures MarkdownContent("a\n\nb", "c") == MarkdownContent("a", "b\n\nc")
  {
  }

  /** Example: "clip.mp3" transcribed as "hello world". */
  lemma MarkdownContentExample()
    ensures MarkdownContent("clip.mp3", "hello world") == "# Transcription: clip.mp3\n\nhello world"
  {
  }
}
