# MLX Whisper transcription: formatting, session rules and upload guard

This project is a Dafny model of the core of a small transcription
application. It has two halves:

- a FastAPI backend, whose `POST /transcribe/` endpoint accepts an audio upload and hands it to a Whisper engine;
- a Streamlit frontend, which sends the file with the user's settings and shows the result.

The backend's answer has the fields `text`, `language` and an optional list of `segments`. Each segment is a dictionary that may carry `start`, `end`, `text` and `words`.

The model covers four parts:

- **Timestamp encoders** (`timestamps.dfy`). `format_time` renders `MM:SS.mmm`, and its minutes widen past 99 instead of rolling over. `format_srt_time` renders the SubRip form `HH:MM:SS,mmm`. A time is a natural number of milliseconds. Separate lemmas show that Python's formulas on an exact real number of seconds produce the same fields at `floor(1000 * s)` milliseconds. The milliseconds are truncated, not rounded.
- **Formatters** (`subtitles.dfy`, over the result type in `transcription.dfy`):
  - the bracketed subtitle listing;
  - the SubRip document;
  - the download contents.

  Each formatter is a loop method proved equal to a specification function. Lemmas then say which line lands where, that each line reads back, and how the document ends.
- **Frontend rules** (`app.py`, modelled in `app.dfy`):
  - how the sidebar settings become form fields;
  - the download base name;
  - the word-timestamp and JSON-download gate;
  - the session state machine, kept in `st.session_state` and modelled as a `Session` class whose methods are the button presses and script runs.
- **Upload guard** (`backend.dfy`). The endpoint checks the size limit, then the extension allow-list (with `os.path.splitext` modelled after `posixpath`), then maps an engine failure to status 500.

`text.dfy` holds the string primitives these need: `str(n)`, zero padding, `str.strip`, `sep.join`, ASCII `lower` and character search. `wrappers.dfy` holds `Option` and `Result`.

Three details of the code differ from what one might expect, and the model follows the code in each:

- **SubRip block numbers** come from `enumerate(segments, 1)`. A skipped incomplete segment still uses up its number, so the numbering is the input position, not a count of the retained blocks (`Subtitles.SrtNumberingSkipsIncomplete`).
- **Word table and JSON download.** Both look at `segments[0]`, the first segment of the input, whether or not it is complete. They do not look at the first retained segment.
- **Return value of `get_subtitle_download_buttons`.** It returns four values (transcript, SubRip, listing, JSON), although its docstring announces three.

## Model

| member | source | states |
|---|---|---|
| Timestamps.CompactClock | project/frontend/utils.py:20-25 | the fields of `format_time`: whole seconds below 60, milliseconds below 1000, and minutes, seconds and milliseconds add back up to the input |
| Timestamps.SrtClock | project/frontend/utils.py:40-46 | the fields of `format_srt_time`: minutes and seconds below 60, milliseconds below 1000, and all four fields add back up to the input |
| Timestamps.FormatTimeLayout | project/frontend/utils.py:27 | `format_time` always has the `MM:SS.mmm` layout (digits, `:`, two digits, `.`, three digits), and it is exactly nine characters long iff the time is under 100 minutes; from 100 minutes on, the minutes field is exactly `str(minutes)`, with no leading zero |
| Timestamps.FormatSrtTimeLayout | project/frontend/utils.py:48 | `format_srt_time` always has the `HH:MM:SS,mmm` layout with a comma, and it is exactly twelve characters long iff the time is under 100 hours; from 100 hours on, the hours field is exactly `str(hours)` |
| Timestamps.FormatTimeRoundTrip | project/frontend/utils.py:20-27 | reading the `MM:SS.mmm` string back gives the millisecond count: nothing is lost at millisecond resolution |
| Timestamps.FormatSrtTimeRoundTrip | project/frontend/utils.py:40-48 | reading the `HH:MM:SS,mmm` string back gives the millisecond count |
| Timestamps.FormatTimeOneHour | project/frontend/utils.py:20-27 | one hour renders as `60:00.000`: the minutes widen and there is no hours field |
| Timestamps.FormatTimeHundredMinutes | project/frontend/utils.py:20-27 | 100 minutes renders as `100:00.000`: the minutes field widens to three digits |
| Timestamps.FormatSrtTimeExample | project/frontend/utils.py:40-48 | 3723.004 s renders as `01:02:03,004` |
| Timestamps.ExactSecondsCompact | project/frontend/utils.py:20-25 | on an exact number of seconds s >= 0, Python's `//`, `%` and `int()` give the same fields as `CompactClock` at `floor(1000*s)` ms, so milliseconds are truncated |
| Timestamps.ExactSecondsSrt | project/frontend/utils.py:40-46 | the same for `format_srt_time`: hours from `s // 3600`, minutes from `(s % 3600) // 60`, seconds and truncated milliseconds from `s % 60` |
| Text.PadNatSpec | project/frontend/utils.py:27 | `f"{n:0wd}"` is all digits, reads back as n, and is exactly max(w, number of digits of n) long: exactly w long iff n < 10^w, and otherwise exactly `str(n)` |
| Text.StripSpec | project/frontend/utils.py:73 | `str.strip()` yields the slice of the text between leading and trailing whitespace (Python's `isspace` set), which itself neither starts nor ends with whitespace |
| Text.StripIdempotent | project/frontend/utils.py:107 | stripping a stripped text changes nothing |
| Text.IntToStringRoundTrip | project/frontend/app.py:50 | `str(i)` of an integer setting parses back to i |
| Transcription.RankIncreasing | project/frontend/utils.py:66-74 | a complete segment earlier in the input is preceded by strictly fewer complete segments, so outputs indexed by rank keep the input order |
| Subtitles.FormatTimestampsAsSubtitles | project/frontend/utils.py:51-76 | the loop returns the listing: nothing when `segments` is absent or empty, otherwise one line per complete segment, in order, with incomplete segments skipped |
| Subtitles.SubtitleListingAt | project/frontend/utils.py:66-74 | the complete segment at position j yields the listing line at its rank among complete segments, which is `[start --> end]  stripped text` |
| Subtitles.SubtitleLineRoundTrip | project/frontend/utils.py:73 | every listing line parses back, via the bracket, the arrow and the two spaces, into the segment's start, end and stripped text |
| Subtitles.GenerateSrtContent | project/frontend/utils.py:79-112 | the loop returns the newline-join of four lines per complete segment: its 1-based input position, the SubRip time range, the stripped text and an empty line |
| Subtitles.SrtLinesAt | project/frontend/utils.py:94-110 | the complete segment at input position j yields the block numbered j+1, at line 4 × (number of complete segments before it) |
| Subtitles.SrtDocumentEmpty | project/frontend/utils.py:91-92 | the document is `""` iff no segment is complete (absent, empty or all incomplete) |
| Subtitles.SrtDocumentEnding | project/frontend/utils.py:110-112 | a non-empty document ends with the last complete segment's stripped text followed by exactly one newline |
| Subtitles.SrtNumberingSkipsIncomplete | project/frontend/utils.py:94-99 | after an incomplete first segment, the only block is numbered 2, not 1 |
| Subtitles.GetSubtitleDownloadButtons | project/frontend/utils.py:115-142 | the transcript is the result's text verbatim; the SubRip and listing contents are `None` exactly when no segment is complete, and are the documents otherwise; the JSON part is the whole result |
| Backend.TranscribeFile | project/backend/main.py:36-83 | status 400 iff the upload is too large or has a disallowed extension; 500 iff it passes both and the engine fails; otherwise the engine's result unchanged |
| Backend.RejectionDetails | project/backend/main.py:51-62 | an oversized file gets the size message even when its extension is also bad; a bad extension gets the allowed-formats message; an engine failure gets `Transcription error: ` + message |
| Backend.SizeLimitInclusive | project/backend/main.py:51-53 | exactly 100 MiB passes the size check; one byte more is rejected |
| Backend.SplitExtSpec | project/backend/main.py:57 | root + extension is the filename; a non-empty extension is one dot followed by no dot or slash, and the rest of its path component is not all dots |
| Backend.SplitExtFound | project/backend/main.py:57 | conversely, when a dot of the last path component has a non-dot before it in that component, the extension is non-empty and starts at the last dot of the path |
| Backend.SplitExtOfName | project/backend/main.py:57 | a name `stem.e`, where `e` holds no dot or slash and the stem holds no slash and is not all dots, splits into `stem` and `.e`; for example `interview.2024.mp3` gives `.mp3` |
| Backend.SplitExtHiddenFile | project/backend/main.py:57 | a leading dot is not an extension: the name `.mp3` has none |
| Backend.ExtensionIgnoresCase | project/backend/main.py:57-58 | the extension is lower-cased before the check, so `talk.MP3` has extension `.mp3` |
| App.EncodeFlag | project/frontend/app.py:50 | booleans reach the form as `true`/`false` |
| App.FormDataLookup | project/frontend/app.py:50-51 | the form has a field for a key exactly when the setting is present and not `None`, and the field holds `str(v)`, lower-cased for booleans |
| App.SettingsKeysDistinct | project/frontend/app.py:150-158 | the seven setting names are distinct, as dictionary keys must be |
| App.SettingsFormOptionalFields | project/frontend/app.py:143-156 | `language` is sent only when one is chosen; `hallucination_silence_threshold` is sent only while the filter is on, with the slider value |
| App.SettingsFormFixedFields | project/frontend/app.py:150-158 | `word_timestamps`, `fp16` and `condition_on_previous_text` are always sent as `true`/`false`; `best_of` is always sent and parses back to the slider value; `no_speech_threshold` is sent as spelled |
| App.BaseNameSpec | project/frontend/app.py:287 | `name.split('.')[0]` is the longest prefix of the name without a dot, and is followed by a dot when shorter than the name |
| App.BaseNameOf | project/frontend/app.py:287 | only the first dot counts: `a.b.mp3` has base name `a` |
| App.DownloadNamesDistinct | project/frontend/app.py:287-375 | the four download names (`_subtitles.txt`, `.srt`, `_transcript.txt`, `_full_transcript.json`) of one upload are pairwise different |
| App.FullJsonGate | project/frontend/app.py:317-319 | the JSON download (line 369) is offered iff the word tab shows a word table, iff word timestamps were requested and the first segment has `words` (its truth test adds nothing) |
| App.UploaderTypesPassBackend | project/frontend/app.py:168 | every type the uploader accepts is an allowed backend extension, so a file `stem.type` passes the extension check, and passes both checks when small enough, for any stem without a slash that is not all dots (further dots allowed) |
| App.FailureMessage | project/frontend/app.py:62-82 | every failed request leaves a non-empty error message |
| App.Session.constructor | project/frontend/app.py:25-33 | a new session is idle, with no result, no error and no file info |
| App.Session.ResetState | project/frontend/app.py:38-43 | the state becomes idle and the result and error are cleared; the file info is kept |
| App.Session.ChangeUpload | project/frontend/app.py:166-186 | when the uploader's value changes, its `on_change=reset_state` callback resets the state first, even for a file with the same name and size; the script then stores the info of a new file and keeps the stored info when the file was removed |
| App.Session.ObserveUpload | project/frontend/app.py:177-186 | on a script run where the uploader's value did not change, a file whose name or size differs from the stored info replaces it and resets the state; the same name and size change nothing |
| App.Session.PressTranscribe | project/frontend/app.py:196-200 | only from idle: the state becomes running and the result and error are cleared |
| App.Session.PressCancel | project/frontend/app.py:219-220 | running becomes cancelled; nothing else changes |
| App.Session.PressClearStatus | project/frontend/app.py:252-254 | from cancelled, back to idle through `reset_state` |
| App.Session.PressClearError | project/frontend/app.py:388-390 | from error, back to idle through `reset_state` |
| App.Session.RequestTranscription | project/frontend/app.py:46-82 | posts the file's name and type with the encoded form; a response body is returned as-is; a timeout, a request error (with the server's status and detail when there is a response) or any other failure sets the error state with its message and returns `None`; called from the running state, as the script does, it keeps the invariant and makes only an allowed transition |
| App.Session.RunPendingRequest | project/frontend/app.py:228-247 | while running with no result and no error, posts the current settings; a result moves to success, a failure to error with its message, an empty answer to error with "Transcription failed for an unknown reason."; every step keeps the state invariant and follows the state diagram |

The `Session` class keeps an invariant, `Valid`:

- a result is stored exactly in the success state;
- a non-empty error message is stored exactly in the error state.

Every method that changes the state preserves it. `RequestTranscription` does so when it is called from the running state, which is the only place the script calls it. The methods that change the state also ensure that the change is one of the allowed transitions:

- idle to running;
- running to cancelled, success or error;
- any state back to idle.

## Left out

- The display and download steps work on text and take no part in the model. These are: Streamlit rendering, widgets, tabs, `st.rerun`, the audio player and the `:.2f` word-time display.
- Times are exact millisecond counts. IEEE floating-point behaviour of `//`, `%` and `int()` is not modelled (for example, 0.3 s truncating to 299 ms). Negative times are outside the model.
- `requests.post`, `raise_for_status` and `response.json()` are not modelled. The HTTP exchange is a `HttpOutcome` parameter: a body, a timeout, a request error with an optional parsed error response, or another exception. When the error body cannot be parsed, the source keeps the `Error: {e}` detail; the model expresses that case as an absent response.
- App.Session.RunPendingRequest does not model the "cancelled during the request" branch (app.py line 234). Within one blocking script run the state cannot change during the request, so the branch is unreachable there.
- Serialisation is opaque. `json.dumps(result, indent=2)` and the UTF-8 `.encode` are not modelled: the download contents are the text before encoding, and the JSON part is the result itself.
- `file.read()`, the engine and its temporary file are not part of this model. This covers `project/backend/utils.py`. The engine's outcome is a `Result` parameter of `Backend.TranscribeFile`.
- The FastAPI app, the CORS middleware, `uvicorn.run`, the pydantic response schema and the form-field parsing are not part of this model. This includes the CLI smoke test `project/backend/test.py`.
- Backend.TranscribeFile: an upload whose size is unknown (`file.size` is `None`) is outside the model. Sizes are natural numbers.
- Text.Lower lower-cases ASCII letters only. That is enough for the fixed extension list, but it is not Python's full Unicode `str.lower`.
- Setting values that are floats are represented by their `str()` spelling. The model selector in the sidebar is not part of the settings that are sent.
- App.Session.ObserveUpload compares the name and size as the source does. It stores the type too, but the type plays no part in the comparison.
- A segment key that is present but holds `null` is not modelled: a segment field is either absent or holds a value. In the source, a `null` `start`, `end` or `text` makes the formatters raise (`format_time(None)` raises `TypeError`). A `null` `words` passes the membership test at app.py lines 319 and 369, so the source would offer the JSON download. A missing or `null` `segments` list is modelled, and both are handled as no segments.
- The `file_info` argument of `get_subtitle_download_buttons` is unused by the source and is dropped.
