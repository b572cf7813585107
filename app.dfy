/**
 * The rules of the Streamlit frontend: how the sidebar settings become the
 * form fields of the upload request, how download file names are derived,
 * when word timestamps and the JSON download are offered, and the session
 * state machine (idle, running, cancelled, success, error) kept in
 * `st.session_state`.  Widgets and rendering are not modelled; a button
 * press or a script run with an uploaded file is a method call, and the
 * HTTP exchange with the backend is an outcome passed in.
 */
module App {

  import opened Wrappers
  import opened Text
  import opened Transcription
  import Backend

  // ---------------------------------------------------------------------
  // Form data
  // ---------------------------------------------------------------------

  /** A value of the settings dictionary.  Floats appear only through their
      `str` spelling, which is what reaches the form. */
  datatype SettingValue =
    | Unset                  // Python `None`
    | Flag(b: bool)
    | Whole(n: int)
    | Decimal(repr: string)
    | Label(s: string)

  /** `str(v).lower()` for a boolean, `str(v)` for anything else. */
  function EncodeValue(v: SettingValue): string
    requires !v.Unset?
  {
    match v
    case Flag(b) => Lower(if b then "True" else "False")
    case Whole(n) => IntToString(n)
    case Decimal(repr) => repr
    case Label(s) => s
  }

  /** Booleans reach the form in lower case. */
  lemma EncodeFlag(b: bool)
    ensures EncodeValue(Flag(b)) == (if b then "true" else "false")
  {
    var r := EncodeValue(Flag(b));
    if b {
      assert r[0] == 't' && r[1] == 'r' && r[2] == 'u' && r[3] == 'e';
    } else {
      assert r[0] == 'f' && r[1] == 'a' && r[2] == 'l' && r[3] == 's' && r[4] == 'e';
    }
  }

  /** The value of the first pair whose key is `key`. */
  function Lookup<V>(pairs: seq<(string, V)>, key: string): Option<V>
  {
    if pairs == [] then None
    else if pairs[0].0 == key then Some(pairs[0].1)
    else Lookup(pairs[1..], key)
  }

  /** A key that no pair carries is not found. */
  lemma {:induction false} LookupMissing<V>(pairs: seq<(string, V)>, key: string)
    requires forall i :: 0 <= i < |pairs| ==> pairs[i].0 != key
    ensures Lookup(pairs, key) == None
  {
    if pairs != [] {
      assert forall i :: 0 <= i < |pairs[1..]| ==> pairs[1..][i] == pairs[i + 1];
      LookupMissing(pairs[1..], key);
    }
  }

  /** No key occurs twice, as in a Python dictionary. */
  predicate DistinctKeys<V>(pairs: seq<(string, V)>) {
    forall i, j :: 0 <= i < j < |pairs| ==> pairs[i].0 != pairs[j].0
  }

  /** In a dictionary, looking up the key of entry `i` finds entry `i`. */
  lemma {:induction false} LookupAt<V>(pairs: seq<(string, V)>, i: nat)
    requires DistinctKeys(pairs) && i < |pairs|
    ensures Lookup(pairs, pairs[i].0) == Some(pairs[i].1)
  {
    if i > 0 {
      assert pairs[1..][i - 1] == pairs[i];
      LookupAt(pairs[1..], i - 1);
    }
  }

  /** The dictionary comprehension of `request_transcription`: the settings
      whose value is not `None`, in order, with their values encoded. */
  function FormData(settings: seq<(string, SettingValue)>): seq<(string, string)>
  {
    if settings == [] then []
    else
      var (key, value) := settings[0];
      (if value.Unset? then [] else [(key, EncodeValue(value))]) + FormData(settings[1..])
  }

  /** The form has a field exactly for each setting that is not `None`, and
      that field holds the encoded value. */
  lemma {:induction false} FormDataLookup(settings: seq<(string, SettingValue)>, key: string)
    requires DistinctKeys(settings)
    ensures Lookup(FormData(settings), key)
         == match Lookup(settings, key)
            case Some(v) => if v.Unset? then None else Some(EncodeValue(v))
            case None => None
  {
    if settings != [] {
      var rest := settings[1..];
      var (k, v) := settings[0];
      assert DistinctKeys(rest) by {
        forall i, j | 0 <= i < j < |rest| ensures rest[i].0 != rest[j].0 {
          assert rest[i] == settings[i + 1] && rest[j] == settings[j + 1];
        }
      }
      FormDataLookup(rest, key);
      if k == key {
        forall i | 0 <= i < |rest| ensures rest[i].0 != key {
          assert rest[i] == settings[i + 1];
        }
        LookupMissing(rest, key);
      }
      if v.Unset? {
        assert FormData(settings) == [] + FormData(rest) == FormData(rest);
      } else {
        var form := FormData(settings);
        assert form == [(k, EncodeValue(v))] + FormData(rest);
        assert form[0] == (k, EncodeValue(v)) && form[1..] == FormData(rest);
      }
    }
  }

  // ---------------------------------------------------------------------
  // Sidebar settings
  // ---------------------------------------------------------------------

  /** The sidebar widgets that feed the request.  The model selector is
      shown but is not part of the settings sent. */
  datatype Sidebar = Sidebar(
    language: Option<string>,
    wordTimestamps: bool,
    fp16: bool,
    bestOf: int,
    noSpeechThreshold: string,
    hallucinationFilter: bool,
    hallucinationThreshold: string,
    conditionOnPreviousText: bool)

  /** The `transcription_settings` dictionary; the threshold slider counts
      only while the hallucination filter is on. */
  function TranscriptionSettings(ui: Sidebar): seq<(string, SettingValue)> {
    [("language", if ui.language.Some? then Label(ui.language.value) else Unset),
     ("word_timestamps", Flag(ui.wordTimestamps)),
     ("fp16", Flag(ui.fp16)),
     ("best_of", Whole(ui.bestOf)),
     ("no_speech_threshold", Decimal(ui.noSpeechThreshold)),
     ("hallucination_silence_threshold",
      if ui.hallucinationFilter then Decimal(ui.hallucinationThreshold) else Unset),
     ("condition_on_previous_text", Flag(ui.conditionOnPreviousText))]
  }

  /** The seven setting names are different (they differ in length). */
  lemma SettingsKeysDistinct(ui: Sidebar)
    ensures DistinctKeys(TranscriptionSettings(ui))
  {
    var settings := TranscriptionSettings(ui);
    forall i, j | 0 <= i < j < |settings| ensures settings[i].0 != settings[j].0 {
      assert |settings[i].0| != |settings[j].0|;
    }
  }

  /** The form field of dictionary entry `i`. */
  lemma SettingField(settings: seq<(string, SettingValue)>, i: nat)
    requires DistinctKeys(settings) && i < |settings|
    ensures Lookup(FormData(settings), settings[i].0)
         == if settings[i].1.Unset? then None else Some(EncodeValue(settings[i].1))
  {
    LookupAt(settings, i);
    FormDataLookup(settings, settings[i].0);
  }

  /** The optional fields: the language only when one is chosen, the
      silence threshold only while the hallucination filter is on. */
  lemma SettingsFormOptionalFields(ui: Sidebar)
    ensures var form := FormData(TranscriptionSettings(ui));
      && Lookup(form, "language") == ui.language
      && Lookup(form, "hallucination_silence_threshold")
           == (if ui.hallucinationFilter then Some(ui.hallucinationThreshold) else None)
  {
    var settings := TranscriptionSettings(ui);
    SettingsKeysDistinct(ui);
    SettingField(settings, 0);
    SettingField(settings, 5);
  }

  /** The fields always sent: booleans as `true`/`false`, `best_of` in a
      form that parses back to the slider value, the speech threshold as
      spelled. */
  lemma SettingsFormFixedFields(ui: Sidebar)
    ensures var form := FormData(TranscriptionSettings(ui));
      && Lookup(form, "word_timestamps") == Some(if ui.wordTimestamps then "true" else "false")
      && Lookup(form, "fp16") == Some(if ui.fp16 then "true" else "false")
      && Lookup(form, "best_of").Some? && ParseInt(Lookup(form, "best_of").value) == Some(ui.bestOf)
      && Lookup(form, "no_speech_threshold") == Some(ui.noSpeechThreshold)
      && Lookup(form, "condition_on_previous_text") == Some(if ui.conditionOnPreviousText then "true" else "false")
  {
    var settings := TranscriptionSettings(ui);
    SettingsKeysDistinct(ui);
    SettingField(settings, 1);
    SettingField(settings, 2);
    SettingField(settings, 3);
    SettingField(settings, 4);
    SettingField(settings, 6);
    EncodeFlag(ui.wordTimestamps);
    EncodeFlag(ui.fp16);
    EncodeFlag(ui.conditionOnPreviousText);
    IntToStringRoundTrip(ui.bestOf);
  }

  // ---------------------------------------------------------------------
  // Download names
  // ---------------------------------------------------------------------

  /** `name.split('.')[0]`: the file name up to its first dot. */
  function BaseName(name: string): string {
    name[..IndexOf(name, '.')]
  }

  /** The base name is the longest dot-free prefix of the name. */
  lemma BaseNameSpec(name: string)
    ensures var b := BaseName(name);
      && b <= name && '.' !in b
      && (|b| < |name| ==> name[|b|] == '.')
  {
    var b := BaseName(name);
    assert forall k :: 0 <= k < |b| ==> b[k] == name[k];
  }

  /** Only the first dot counts: `stem.rest` has base name `stem`, however
      many dots `rest` holds. */
  lemma BaseNameOf(stem: string, rest: string)
    requires '.' !in stem
    ensures BaseName(stem + "." + rest) == stem
  {
    IndexOfFirst(stem, '.', rest);
    assert (stem + "." + rest)[..|stem|] == stem;
  }

  /** The four files offered for download. */
  datatype Artifact = SubtitleListingFile | SrtFile | TranscriptFile | FullJsonFile

  function Suffix(a: Artifact): string {
    match a
    case SubtitleListingFile => "_subtitles.txt"
    case SrtFile => ".srt"
    case TranscriptFile => "_transcript.txt"
    case FullJsonFile => "_full_transcript.json"
  }

  /** The download name of an artifact of the uploaded file `name`. */
  function DownloadFileName(name: string, a: Artifact): string {
    BaseName(name) + Suffix(a)
  }

  /** The four download names of one upload are pairwise different. */
  lemma DownloadNamesDistinct(name: string, a: Artifact, b: Artifact)
    requires a != b
    ensures DownloadFileName(name, a) != DownloadFileName(name, b)
  {
    assert |Suffix(a)| != |Suffix(b)|;
  }

  // ---------------------------------------------------------------------
  // Word timestamps tab and JSON download
  // ---------------------------------------------------------------------

  /** The JSON download is offered when word timestamps are requested and
      the first segment is a non-empty dictionary with a `words` key. */
  predicate OffersFullJson(wordTimestampsRequested: bool, result: TranscriptionResult) {
    var segs := SegmentList(result);
    wordTimestampsRequested && segs != [] && Truthy(segs[0]) && segs[0].words.Some?
  }

  /** What the word-timestamps tab shows. */
  datatype WordTab = WordTable | WordsNotGenerated | WordsNotRequested

  function WordTabView(wordTimestampsRequested: bool, result: TranscriptionResult): WordTab {
    var segs := SegmentList(result);
    if wordTimestampsRequested && segs != [] then
      if Truthy(segs[0]) && segs[0].words.Some? then WordTable else WordsNotGenerated
    else WordsNotRequested
  }

  /** The JSON download appears exactly when the tab lists words, and the
      truth test on the first segment adds nothing to its `words` test. */
  lemma FullJsonGate(requested: bool, result: TranscriptionResult)
    ensures OffersFullJson(requested, result) <==> WordTabView(requested, result) == WordTable
    ensures OffersFullJson(requested, result)
        <==> requested && SegmentList(result) != [] && SegmentList(result)[0].words.Some?
  {
  }

  /** The file types the uploader accepts (without their dots). */
  const UploaderTypes: seq<string> := ["mp3", "wav", "m4a", "flac", "mov"]

  /** Each uploader type, with a dot in front, is an allowed backend
      extension; it holds no dot or slash and no upper-case letter. */
  lemma UploaderTypeFacts(t: string)
    requires t in UploaderTypes
    ensures "." + t in Backend.AllowedExtensions
    ensures '.' !in t && '/' !in t
    ensures Lower("." + t) == "." + t
  {
    var ext := "." + t;
    if t == "mp3" {
      assert ext == Backend.AllowedExtensions[0];
    } else if t == "wav" {
      assert ext == Backend.AllowedExtensions[1];
    } else if t == "m4a" {
      assert ext == Backend.AllowedExtensions[2];
    } else if t == "flac" {
      assert ext == Backend.AllowedExtensions[3];
    } else {
      assert ext == Backend.AllowedExtensions[4];
    }
    forall k | 0 <= k < |ext| ensures Lower(ext)[k] == ext[k] {
      assert 'a' <= ext[k] <= 'z' || '0' <= ext[k] <= '9' || ext[k] == '.';
    }
  }

  /** A file the uploader accepts, named `stem.type` (the stem may hold
      further dots, as in `talk.2024.mp3`), passes the backend's extension
      check, and passes both checks when it is small enough. */
  lemma UploaderTypesPassBackend(stem: string, t: string, size: nat)
    requires '/' !in stem && exists k :: 0 <= k < |stem| && stem[k] != '.'
    requires t in UploaderTypes
    ensures Backend.Extension(stem + "." + t) in Backend.AllowedExtensions
    ensures size <= Backend.MaxUploadBytes ==> Backend.Admissible(Backend.Upload(stem + "." + t, size))
  {
    UploaderTypeFacts(t);
    Backend.SplitExtOfName(stem, t);
  }

  // ---------------------------------------------------------------------
  // Session state
  // ---------------------------------------------------------------------

  /** `transcription_state`: "idle", "running", "cancelled", "success",
      "error". */
  datatype TranscriptionState = Idle | Running | Cancelled | Succeeded | Failed

  /** The moves the frontend makes: Transcribe starts a run, a run ends
      cancelled, successful or failed, and a reset (Clear Status, Clear
      Error or a new upload) returns to idle from anywhere. */
  predicate Transition(from: TranscriptionState, to: TranscriptionState) {
    || (from == Idle && to == Running)
    || (from == Running && (to == Cancelled || to == Succeeded || to == Failed))
    || to == Idle
  }

  /** `uploaded_file_info`. */
  datatype FileInfo = FileInfo(name: string, size: nat, mimeType: string)

  /** A later upload is new when nothing was stored or its name or size
      differs; the MIME type is not compared. */
  predicate IsNewUpload(stored: Option<FileInfo>, file: FileInfo) {
    stored.None? || stored.value.name != file.name || stored.value.size != file.size
  }

  /** An HTTP error response: its status and its `detail` (or, when the
      body has none, its text). */
  datatype ErrorResponse = ErrorResponse(status: int, detail: string)

  /** How the POST to the backend ends: a 2xx response whose JSON body is a
      result (`None` for a falsy body), a timeout, another `requests`
      failure (with the error response when there was one and its body could
      be read), or any other exception. */
  datatype HttpOutcome =
    | Responded(body: Option<TranscriptionResult>)
    | TimedOut
    | RequestFailed(error: string, response: Option<ErrorResponse>)
    | Crashed(error: string)

  /** What is posted: the file's name and type, and the form fields. */
  datatype Request = Request(fileName: string, mimeType: string, form: seq<(string, string)>)

  const TimeoutMessage: string := "The transcription request timed out. The file might be too long or the server busy."

  const UnknownFailureMessage: string := "Transcription failed for an unknown reason."

  /** The error message `request_transcription` stores for a failed request. */
  function FailureMessage(outcome: HttpOutcome): (m: string)
    requires !outcome.Responded?
    ensures |m| > 0
  {
    match outcome
    case TimedOut => TimeoutMessage
    case RequestFailed(e, response) =>
      "Failed to communicate with the transcription server. "
        + (match response
           case Some(r) => "Error " + IntToString(r.status) + ": " + r.detail
           case None => "Error: " + e)
    case Crashed(e) => "An unexpected error occurred: " + e
  }

  /** `st.session_state`. */
  class Session {
    var state: TranscriptionState
    var result: Option<TranscriptionResult>
    var errorMessage: Option<string>
    var uploadedFileInfo: Option<FileInfo>

    /** A result exists exactly in the success state and a (non-empty)
        message exactly in the error state, so the display never meets a
        success without a result or an error without a message. */
    predicate Valid()
      reads this
    {
      match state
      case Idle | Running | Cancelled => result.None? && errorMessage.None?
      case Succeeded => result.Some? && errorMessage.None?
      case Failed => result.None? && errorMessage.Some? && |errorMessage.value| > 0
    }

    /** The first run of the script. */
    constructor ()
      ensures Valid()
      ensures state == Idle && result == None && errorMessage == None && uploadedFileInfo == None
    {
      state := Idle;
      result := None;
      errorMessage := None;
      uploadedFileInfo := None;
    }

    /** `reset_state`; the stored file info is kept. */
    method ResetState()
      modifies this
      ensures state == Idle && result == None && errorMessage == None
      ensures uploadedFileInfo == old(uploadedFileInfo)
      ensures Valid()
    {
      state := Idle;
      result := None;
      errorMessage := None;
    }

    /** A script run with `file` in the uploader and no change of the
        uploader's value: a new file replaces the stored info and resets the
        state; the same name and size change nothing. */
    method ObserveUpload(file: FileInfo)
      modifies this
      requires Valid()
      ensures IsNewUpload(old(uploadedFileInfo), file) ==>
                && uploadedFileInfo == Some(file)
                && state == Idle && result == None && errorMessage == None
      ensures !IsNewUpload(old(uploadedFileInfo), file) ==>
                && uploadedFileInfo == old(uploadedFileInfo)
                && state == old(state) && result == old(result) && errorMessage == old(errorMessage)
      ensures Valid()
      ensures state == old(state) || Transition(old(state), state)
    {
      if uploadedFileInfo.None? || uploadedFileInfo.value.name != file.name || uploadedFileInfo.value.size != file.size {
        uploadedFileInfo := Some(file);
        ResetState();
      }
    }

    /** A script run after the uploader's value changed (a file chosen or
        removed): the `on_change` callback `reset_state` runs first, then the
        script stores the info of a new file.  A file with the same name and
        size as the stored one is also reset here, unlike in `ObserveUpload`. */
    method ChangeUpload(file: Option<FileInfo>)
      modifies this
      requires Valid()
      ensures state == Idle && result == None && errorMessage == None
      ensures uploadedFileInfo
           == if file.Some? && IsNewUpload(old(uploadedFileInfo), file.value) then file else old(uploadedFileInfo)
      ensures Valid()
      ensures state == old(state) || Transition(old(state), state)
    {
      ResetState();
      if file.Some? {
        ObserveUpload(file.value);
      }
    }

    /** The Transcribe button, shown only when idle. */
    method PressTranscribe()
      modifies this
      requires Valid()
      ensures old(state) == Idle ==> state == Running && result == None && errorMessage == None
      ensures old(state) != Idle ==>
                state == old(state) && result == old(result) && errorMessage == old(errorMessage)
      ensures uploadedFileInfo == old(uploadedFileInfo)
      ensures Valid()
      ensures state == old(state) || Transition(old(state), state)
    {
      if state == Idle {
        state := Running;
        result := None;
        errorMessage := None;
      }
    }

    /** The Cancel button, shown while running; the backend is not told. */
    method PressCancel()
      modifies this
      requires Valid()
      ensures state == (if old(state) == Running then Cancelled else old(state))
      ensures result == old(result) && errorMessage == old(errorMessage)
      ensures uploadedFileInfo == old(uploadedFileInfo)
      ensures Valid()
      ensures state == old(state) || Transition(old(state), state)
    {
      if state == Running {
        state := Cancelled;
      }
    }

    /** The Clear Status button, shown when cancelled. */
    method PressClearStatus()
      modifies this
      requires Valid()
      ensures old(state) == Cancelled ==> state == Idle && result == None && errorMessage == None
      ensures old(state) != Cancelled ==>
                state == old(state) && result == old(result) && errorMessage == old(errorMessage)
      ensures uploadedFileInfo == old(uploadedFileInfo)
      ensures Valid()
    {
      if state == Cancelled {
        ResetState();
      }
    }

    /** The Clear Error button, shown in the error state. */
    method PressClearError()
      modifies this
      requires Valid()
      ensures old(state) == Failed ==> state == Idle && result == None && errorMessage == None
      ensures old(state) != Failed ==>
                state == old(state) && result == old(result) && errorMessage == old(errorMessage)
      ensures uploadedFileInfo == old(uploadedFileInfo)
      ensures Valid()
    {
      if state == Failed {
        ResetState();
      }
    }

    /** `request_transcription`: posts the file and the form data; every
        failure sets the error state and its message and yields `None`. */
    method RequestTranscription(file: FileInfo, settings: seq<(string, SettingValue)>, outcome: HttpOutcome)
      returns (posted: Request, apiResult: Option<TranscriptionResult>)
      modifies this
      ensures posted == Request(file.name, file.mimeType, FormData(settings))
      ensures apiResult == (if outcome.Responded? then outcome.body else None)
      ensures outcome.Responded? ==> state == old(state) && errorMessage == old(errorMessage)
      ensures !outcome.Responded? ==> state == Failed && errorMessage == Some(FailureMessage(outcome))
      ensures result == old(result) && uploadedFileInfo == old(uploadedFileInfo)
      ensures old(Valid()) && old(state) == Running ==>
                Valid() && (state == old(state) || Transition(old(state), state))
    {
      var formData := FormData(settings);
      posted := Request(file.name, file.mimeType, formData);
      match outcome
      case Responded(body) =>
        apiResult := body;
      case TimedOut =>
        errorMessage := Some(TimeoutMessage);
        state := Failed;
        apiResult := None;
      case RequestFailed(e, response) =>
        var errorDetail := "Error: " + e;
        if response.Some? {
          errorDetail := "Error " + IntToString(response.value.status) + ": " + response.value.detail;
        }
        errorMessage := Some("Failed to communicate with the transcription server. " + errorDetail);
        state := Failed;
        apiResult := None;
      case Crashed(e) =>
        errorMessage := Some("An unexpected error occurred: " + e);
        state := Failed;
        apiResult := None;
    }

    /** A script run in the running state: when no result and no error are
        stored yet, the request is made with the current sidebar settings;
        a result moves to success, a failure to error with its message, and
        an empty answer to error with the unknown-failure message. */
    method RunPendingRequest(file: FileInfo, ui: Sidebar, outcome: HttpOutcome) returns (posted: Option<Request>)
      modifies this
      requires Valid()
      ensures var pending := old(state) == Running && old(result).None? && old(errorMessage).None?;
        && (!pending ==>
              && posted.None?
              && state == old(state) && result == old(result) && errorMessage == old(errorMessage))
        && (pending ==>
              && posted == Some(Request(file.name, file.mimeType, FormData(TranscriptionSettings(ui))))
              && match outcome
                 case Responded(Some(r)) => state == Succeeded && result == Some(r) && errorMessage == None
                 case Responded(None) => state == Failed && result == None && errorMessage == Some(UnknownFailureMessage)
                 case _ => state == Failed && result == None && errorMessage == Some(FailureMessage(outcome)))
      ensures uploadedFileInfo == old(uploadedFileInfo)
      ensures Valid()
      ensures state == old(state) || Transition(old(state), state)
    {
      posted := None;
      if state == Running && result.None? && errorMessage.None? {
        var request, apiResult := RequestTranscription(file, TranscriptionSettings(ui), outcome);
        posted := Some(request);
        if apiResult.Some? {
          result := apiResult;
          state := Succeeded;
        } else if state != Failed {
          errorMessage := Some(UnknownFailureMessage);
          state := Failed;
        }
      }
    }
  }
}
