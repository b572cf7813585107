/**
 * The upload guard of the backend's `POST /transcribe/` endpoint
 * (`transcribe_file`): a size limit, then an extension allow-list, then
 * the transcription engine, whose exceptions become status 500.  The
 * engine is a black box, so its outcome is a parameter.
 */
module Backend {

  import opened Wrappers
  import opened Text
  import opened Transcription

  /** 100 MiB; a file of exactly this size is still accepted. */
  const MaxUploadBytes: nat := 100 * 1024 * 1024

  const AllowedExtensions: seq<string> := [".mp3", ".wav", ".m4a", ".flac", ".mov"]

  const TooLargeDetail: string := "File too large (max 100MB)"

  /** The detail of the unsupported-format error: the allowed extensions
      joined by `", "`. */
  function UnsupportedDetail(): string {
    "Unsupported file format. Allowed formats: " + Join(AllowedExtensions, ", ")
  }

  /** The multipart file as the endpoint sees it. */
  datatype Upload = Upload(filename: string, size: nat)

  /** What the endpoint answers: the engine's result (status 200) or an
      `HTTPException` with its status and detail. */
  datatype Response = Ok(result: TranscriptionResult) | HttpError(status: nat, detail: string)

  // ---------------------------------------------------------------------
  // os.path.splitext
  // ---------------------------------------------------------------------

  /** Some character of `p[lo..hi]` is not a dot. */
  predicate HasNonDot(p: string, lo: nat, hi: nat)
    requires lo <= hi <= |p|
  {
    exists k :: lo <= k < hi && p[k] != '.'
  }

  /** `posixpath.splitext(p)`: the extension starts at the last dot of the
      last path component, unless everything before that dot in the
      component is dots (a hidden file such as `.mp3` has no extension). */
  function SplitExt(p: string): (string, string)
  {
    var sep := LastIndexOf(p, '/');
    var dot := LastIndexOf(p, '.');
    if dot > sep && HasNonDot(p, sep + 1, dot) then (p[..dot], p[dot..]) else (p, "")
  }

  /** The two parts put back together give the path; a non-empty extension
      is one dot followed by neither a dot nor a slash, and the rest of its
      path component holds something other than dots. */
  lemma SplitExtSpec(p: string)
    ensures SplitExt(p).0 + SplitExt(p).1 == p
    ensures var (root, ext) := SplitExt(p);
            ext != [] ==>
              && ext[0] == '.' && '.' !in ext[1..] && '/' !in ext
              && exists k :: 0 <= k < |root| && root[k] != '.' && '/' !in root[k..]
  {
    var sep := LastIndexOf(p, '/');
    var dot := LastIndexOf(p, '.');
    if dot > sep && HasNonDot(p, sep + 1, dot) {
      var ext := p[dot..];
      assert p[..dot] + ext == p;
      forall k | 0 <= k < |ext| ensures ext[k] != '/' && (k > 0 ==> ext[k] != '.') {
        assert ext[k] == p[dot + k];
      }
      var k :| sep + 1 <= k < dot && p[k] != '.';
      forall m | 0 <= m < |p[..dot][k..]| ensures p[..dot][k..][m] != '/' {
        assert p[..dot][k..][m] == p[k + m];
      }
      assert p[..dot][k] != '.' && '/' !in p[..dot][k..];
    }
  }

  /** Conversely, an extension is found whenever a dot of the last path
      component has a non-dot before it in that component; it then starts at
      the last dot of the path. */
  lemma SplitExtFound(p: string, k: nat, i: nat)
    requires k < i < |p| && p[k] != '.' && p[i] == '.' && '/' !in p[k..]
    ensures SplitExt(p).1 == p[LastIndexOf(p, '.')..] != []
  {
    var sep := LastIndexOf(p, '/');
    var dot := LastIndexOf(p, '.');
    assert sep < k;
    assert i <= dot;
    assert HasNonDot(p, sep + 1, dot);
  }

  /** A name `stem.e` splits at its last dot when the stem holds no slash
      and is not all dots: `interview.2024.mp3` has extension `.mp3`. */
  lemma SplitExtOfName(stem: string, e: string)
    requires '/' !in stem && exists k :: 0 <= k < |stem| && stem[k] != '.'
    requires '.' !in e && '/' !in e
    ensures SplitExt(stem + "." + e) == (stem, "." + e)
  {
    var p := stem + "." + e;
    var k :| 0 <= k < |stem| && stem[k] != '.';
    assert p[k] == stem[k];
    assert p[|stem|] == '.';
    forall m | 0 <= m < |p[k..]| ensures p[k..][m] != '/' {
      assert p[k..][m] == p[k + m];
      if k + m < |stem| {
        assert p[k + m] == stem[k + m];
      } else if k + m > |stem| {
        assert p[k + m] == e[k + m - |stem| - 1];
      }
    }
    forall m | |stem| < m < |p| ensures p[m] != '.' {
      assert p[m] == e[m - |stem| - 1];
    }
    assert LastIndexOf(p, '.') == |stem|;
    SplitExtFound(p, k, |stem|);
    assert p[..|stem|] == stem && p[|stem|..] == "." + e;
  }

  /** A name made of one leading dot and an extension has no extension. */
  lemma SplitExtHiddenFile()
    ensures SplitExt(".mp3") == (".mp3", "")
  {
    var p := ".mp3";
    assert p[0] == '.' && p[1] != '.' && p[2] != '.' && p[3] != '.';
    assert LastIndexOf(p, '.') == 0;
    assert !HasNonDot(p, 0, 0);
  }

  /** `os.path.splitext(filename)[1].lower()`. */
  function Extension(filename: string): string {
    Lower(SplitExt(filename).1)
  }

  /** The extension check compares lower-cased, so `talk.MP3` passes. */
  lemma ExtensionIgnoresCase()
    ensures Extension("talk.MP3") == ".mp3"
  {
    assert "talk.MP3" == "talk" + "." + "MP3";
    assert '/' !in "talk" && "talk"[0] != '.' && '.' !in "MP3" && '/' !in "MP3";
    SplitExtOfName("talk", "MP3");
    var lower := Lower(".MP3");
    assert lower[0] == '.' && lower[1] == 'm' && lower[2] == 'p' && lower[3] == '3';
    assert lower == ".mp3";
  }

  // ---------------------------------------------------------------------
  // transcribe_file
  // ---------------------------------------------------------------------

  /** The upload passes both guards. */
  predicate Admissible(upload: Upload) {
    upload.size <= MaxUploadBytes && Extension(upload.filename) in AllowedExtensions
  }

  /** `transcribe_file`: the size guard, then the extension guard, then the
      engine (`Failure(m)` stands for an exception whose message is `m`). */
  function TranscribeFile(upload: Upload, engine: Result<TranscriptionResult, string>): (r: Response)
    ensures r.HttpError? && r.status == 400 <==> !Admissible(upload)
    ensures r.HttpError? && r.status == 500 <==> Admissible(upload) && engine.Failure?
    ensures r.Ok? <==> Admissible(upload) && engine.Success?
    ensures r.Ok? ==> r.result == engine.value
    ensures r.HttpError? ==> r.status == 400 || r.status == 500
  {
    if upload.size > MaxUploadBytes then
      HttpError(400, TooLargeDetail)
    else if Extension(upload.filename) !in AllowedExtensions then
      HttpError(400, UnsupportedDetail())
    else
      match engine
      case Success(result) => Ok(result)
      case Failure(message) => HttpError(500, "Transcription error: " + message)
  }

  /** Each rejection carries its own detail, and the size check wins when
      both checks fail. */
  lemma RejectionDetails(upload: Upload, engine: Result<TranscriptionResult, string>)
    ensures upload.size > MaxUploadBytes ==> TranscribeFile(upload, engine) == HttpError(400, TooLargeDetail)
    ensures upload.size <= MaxUploadBytes && Extension(upload.filename) !in AllowedExtensions ==>
              TranscribeFile(upload, engine) == HttpError(400, UnsupportedDetail())
    ensures Admissible(upload) && engine.Failure? ==>
              TranscribeFile(upload, engine) == HttpError(500, "Transcription error: " + engine.error)
  {
  }

  /** The limit is inclusive: a `.mp3` file of exactly 100 MiB reaches the
      engine, one byte more does not. */
  lemma SizeLimitInclusive(stem: string, engine: Result<TranscriptionResult, string>)
    requires '/' !in stem && exists k :: 0 <= k < |stem| && stem[k] != '.'
    ensures TranscribeFile(Upload(stem + ".mp3", MaxUploadBytes), engine).Ok? <==> engine.Success?
    ensures TranscribeFile(Upload(stem + ".mp3", MaxUploadBytes + 1), engine) == HttpError(400, TooLargeDetail)
  {
    assert stem + ".mp3" == stem + "." + "mp3";
    SplitExtOfName(stem, "mp3");
    var lower := Lower(".mp3");
    assert lower[0] == '.' && lower[1] == 'm' && lower[2] == 'p' && lower[3] == '3';
    assert lower == ".mp3";
  }
}
