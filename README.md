# AudioPro 1.7 (REAPER edition): a Dafny model of its processing logic

AudioPro takes audio and video files and runs them through a fixed chain:
- extract the audio;
- optionally clean it with ElevenLabs audio isolation;
- open a REAPER session created from a template;
- render the session;
- write `<name>_procesado…` into `<source dir>/procesados`, or next to the render when the file has no source directory.

Files come from an upload, a Google Drive link or a local path. They are processed one after the other. A file that fails is reported and skipped.

Most of the work happens in other programs: ffmpeg, REAPER, the ElevenLabs HTTP API and Google Drive. This project models the deterministic logic around those calls. What the outside world answers is an explicit parameter:
- whether a file exists;
- what a read returned;
- what each POST did;
- whether a transcode succeeded;
- whether the render timed out;
- what a directory lists;
- the clock.

Modules, one file each:

- `Base` (`base.dfy`): `Option`, `Result` and a `byte` type.
- `Text` (`text.dfy`): the Python `str` operations the code uses: `in`, `split`, `replace`, `endswith` and `lower`. `IndexOf` (the first occurrence) and `JoinWith` (the inverse of `split`) are helpers that define `in`, `split` and `replace`.
- `Paths` (`paths.dfy`): `os.path.join`, `basename`, `dirname` and `splitext`, as `posixpath` defines them.
- `AudioUtils` (`audio_utils.dfy`): the helpers of `audio_utils.py`:
  - reading a local path;
  - parsing a Drive link and downloading it;
  - the audio-only test;
  - the isolation adapter with its retry loop (a method with a loop);
  - the rolling window of session timestamps (a class updated in place).
- `ReaperSession` (`reaper_session.dfy`): working with session files:
  - the template rewrite;
  - the scan for the insertion point (a method with a loop);
  - splicing in the audio item;
  - the search for the rendered file (a method with two loops).
- `Pipeline` (`pipeline.dfy`): one file through `process_with_reaper_pipeline` (names, paths and the order of failures), and the batch loop of `main` (a method with a loop).

Each loop method is proved equal to a specification function. The properties are proved as lemmas about those functions.

## Model

| member | source | states |
|---|---|---|
| Text.IndexOfFirst | audio_utils.py:53-56 | the first occurrence of the pattern, where `split` cuts; nothing exactly when the pattern does not occur (the `in` test) |
| Text.Split | audio_utils.py:54 | `split` always returns at least one piece |
| Text.SplitPiecesFree | audio_utils.py:54 | no piece of a split contains the separator |
| Text.SplitJoin | audio_utils.py:54 | joining the pieces of a split with the same separator gives back the original string |
| Text.SplitHead | audio_utils.py:54 | the first piece is the text before the first occurrence of the separator: no occurrence starts inside it, and the separator or the end of the string follows it |
| Text.SplitCount | audio_utils.py:53-56 | a split has more than one piece exactly when the separator occurs |
| Text.SplitSecond | audio_utils.py:54 | piece `[1]` is the first piece of the text after the first separator |
| Text.Replace | app.py:80-83 | when the pattern does not occur, `replace` leaves the text unchanged |
| Text.ReplaceIsSplitJoin | app.py:80-83 | `replace` replaces every non-overlapping occurrence, left to right; the text between occurrences is kept as it was and in order |
| Text.ReplaceSelf | app.py:80-83 | replacing a pattern with itself changes nothing |
| Text.LowerSuffix | audio_utils.py:155 | lowering a string and then taking a suffix equals taking the suffix and then lowering it |
| Text.LowerIdempotent | audio_utils.py:155 | lowering twice is lowering once; a lowered string has no ASCII capital letter left |
| Paths.LastIndexOf | audio_utils.py:155 | `rfind`: the index of the last occurrence, with none after it; nothing exactly when the character is absent |
| Paths.Basename | audio_utils.py:32 | the base name is all the text after the last separator: it ends the path, has no separator, and is the whole path or is preceded by a separator |
| Paths.RStrip | audio_utils.py:33 | `dirname` strips only trailing separators, and only from the end |
| Paths.Dirname | audio_utils.py:33 | `dirname` is a prefix of the path followed only by separators up to the base name; it is empty exactly when the path has no separator; it is empty, all separators (then the whole head), or does not end in a separator |
| Paths.SplitExt | audio_utils.py:155 | `splitext` splits the path into root and extension, which concatenate back to the path; a non-empty extension starts at the last dot, lies in the last component and has a character other than a dot before it there; the extension is empty exactly when no dot of the last component has such a character before it |
| Paths.SplitExtAppend | app.py:242 | appending an extension to a name that is not all dots gives back that name and that extension |
| Paths.ExtOfJoin | app.py:247 | joining a name under a directory does not change the extension |
| Paths.ExtLower | audio_utils.py:155 | the extension of the lowered path is the lowered extension |
| Paths.JoinSplitsBack | audio_utils.py:32-33 | `basename` and `dirname` of `join(dir, name)` give back `name` and `dir` |
| Paths.JoinBasename | audio_utils.py:32 | `basename` of `join(dir, name)` is `name` for any directory |
| AudioUtils.GetBytesFromLocalPath | audio_utils.py:15-39 | the result is none exactly when the path is missing or the read fails; otherwise it is `(content read, basename(path), dirname(path))` |
| AudioUtils.LocalFileParts | audio_utils.py:32-35 | reading `dir/name` gives `(content, name, dir)` |
| AudioUtils.LocalFileBareName | audio_utils.py:32-35 | a bare file name gives the empty source directory |
| AudioUtils.DriveFileId | audio_utils.py:53-59 | no id exactly when the link contains neither `id=` nor `/file/d/` |
| AudioUtils.DriveIdOfQueryLink | audio_utils.py:53-54 | with `id=` in the link, the id is the text after the first `id=`, up to the first `&`, the next `id=` or the end; it contains neither |
| AudioUtils.DriveIdOfSharingLink | audio_utils.py:55-56 | without `id=` but with `/file/d/`, the id is the text after the first `/file/d/`, up to the next `/` or the end |
| AudioUtils.DownloadUrlRoundTrip | audio_utils.py:53-62 | parsing the download URL built from an id that contains neither `&` nor `id=` gives back that id |
| AudioUtils.GetBytesFromDrive | audio_utils.py:42-85 | no result for a link without an id; a result holds the bytes read from the path the download of that id returned, and that path's base name; a parsed id whose download gives a non-empty path that reads back always gives that result |
| AudioUtils.IsAudioOnlyFile | audio_utils.py:145-156 | audio-only exactly when the lowered `splitext` extension is one of `.mp3 .wav .flac .m4a .aac .ogg` |
| AudioUtils.AudioByExtension | audio_utils.py:154-156 | for `name + ext`, the answer depends only on the lowered `ext` |
| AudioUtils.AudioIgnoresCase | audio_utils.py:155 | two paths that are equal once lowered are classified the same |
| AudioUtils.NoExtensionNotAudio | audio_utils.py:154-156 | a path without an extension is never audio-only |
| AudioUtils.Waits | audio_utils.py:200-211 | the waits after the first `n` failed attempts are the back-offs of attempts `0..n-1` |
| AudioUtils.FirstSettled | audio_utils.py:200-214 | the first attempt from `k` on that is not a connection error or timeout; if there is none, every attempt up to the fifth was one |
| AudioUtils.Settle | audio_utils.py:216-270 | the status dispatch: a new path only for status 200 with a successful conversion, otherwise the input path; the posts and waits are unchanged |
| AudioUtils.ProcessAudioWithElevenLabs | audio_utils.py:159-270 | the retry loop computes exactly the adapter's specification `Isolate` |
| AudioUtils.NoRequestWhenSwitchedOff | audio_utils.py:173-180 | no POST is made exactly when the key is missing, the flag is set or the input cannot be opened; the input path is then returned |
| AudioUtils.RetriesBounded | audio_utils.py:199-214 | at most 5 POSTs; one wait fewer than POSTs; wait `i` is `3·(i+1)`; every POST but the last failed transiently |
| AudioUtils.ExhaustionAfterFiveFailures | audio_utils.py:206-214 | retries are exhausted exactly when all five attempts fail transiently; then there are 5 POSTs, waits 3, 6, 9, 12 (none after the fifth), and the input path |
| AudioUtils.WaitsGrowAndStayShort | audio_utils.py:207-211 | the waits strictly increase and add up to at most 30 seconds |
| AudioUtils.OnlySuccessChangesPath | audio_utils.py:216-270 | the output is `elevenlabs_<timestamp>.wav` in the fixed folder exactly when the last POST returned 200 and the conversion succeeded; every other path returns the input |
| AudioUtils.ResponseEndsRetries | audio_utils.py:203-205 | any HTTP response, of any status, ends the loop: attempt `k` answering means `k+1` POSTs |
| AudioUtils.FirstSettledAt | audio_utils.py:200-205 | the loop stops at the first attempt that does not fail transiently |
| AudioUtils.Recent | audio_utils.py:283-285 | keeping the last `n` entries gives a suffix of length `min(len, n)` |
| AudioUtils.RecentAppend | audio_utils.py:281-285 | truncating after every append equals truncating the whole history once |
| AudioUtils.SessionState.constructor | audio_utils.py:275 | a fresh session state has no `user_sessions` entry |
| AudioUtils.SessionState.RegisterUserSession | audio_utils.py:273-285 | the list becomes the last 100 of (old list, or empty) + now; it always holds the last 100 timestamps ever registered, at most 100 entries, ending with now |
| ReaperSession.CreateReaperSessionFromTemplate | app.py:52-90 | every occurrence of the old `RENDER_FILE` literal becomes the new line and the rest of the template is kept; without the literal the text is unchanged; the path ends in `<name>.rpp` |
| ReaperSession.RenderLineReplaced | app.py:79-83 | when the template has the old `RENDER_FILE` literal, the session keeps the text before its first occurrence and has `RENDER_FILE "<session_dir>/<name>"` exactly where it started |
| ReaperSession.SessionLayout | app.py:69-86 | the session file is `<output_dir>/<name>/<name>.rpp`: its `dirname` is the session directory, and its `basename` without extension is the session name |
| ReaperSession.SessionFileLayout | app.py:69-86 | `<output_dir>/<name>/<name>.rpp` splits back into the session directory, the file name and the session name |
| ReaperSession.TrackLineNeverAnchors | app.py:109-111 | a line containing `<TRACK` contains `<`, so it never counts as a closing line |
| ReaperSession.FirstAnchorFrom | app.py:108-113 | the scan from `k` finds the first closing line (`>` but no `<`) after a `<TRACK` line, or reports none |
| ReaperSession.InsertionIndex | app.py:105-113 | the insertion index is one past the first closing line that follows a `<TRACK` line; it is 0 exactly when there is no such line |
| ReaperSession.NoTrackInsertsFirst | app.py:105-113 | with no `<TRACK` line the item is inserted at index 0 |
| ReaperSession.AnchorAfterTrack | app.py:108-113 | the anchor lies strictly after the first `<TRACK` line |
| ReaperSession.FindInsertIndex | app.py:105-113 | the scan loop with its `track_found` flag and `break` computes exactly `InsertionIndex` |
| ReaperSession.AddAudioToReaperSession | app.py:93-145 | exactly one line is added: the lines before the index are unchanged, the item is at the index and the later lines shift by one; the multiset of lines gains exactly the item |
| ReaperSession.InsertAt | app.py:141 | `insert` adds one element at the index: the prefix is kept, the item is at the index, the rest shifts by one, and the multiset gains exactly the item |
| ReaperSession.InsertionKeepsOrder | app.py:141 | removing the inserted item gives the original lines back in order |
| ReaperSession.FirstExisting | app.py:214-216 | the first candidate that exists, with none before it; nothing exactly when none exists |
| ReaperSession.FirstListed | app.py:219-221 | the first listed `.wav` whose name contains the session name; nothing exactly when there is none |
| ReaperSession.CandidatesInDir | app.py:208-212 | each of the three candidates `<name>.wav`, `<name>-master.wav`, `<name> master.wav` lies in the session directory |
| ReaperSession.FindRenderedFile | app.py:169-223 | the two search loops compute exactly `RenderedFile`: a timeout error, the first existing candidate, the first matching listed file, or the not-found error |
| ReaperSession.PlainWavPreferred | app.py:208-216 | when `<name>.wav` exists, it is the answer, whatever else exists |
| ReaperSession.RenderedFileInSessionDir | app.py:204-221 | a found render lies in the session file's directory |
| ReaperSession.RenderFoundInSessionDir | app.py:204-221 | a render found for a session created from the template lies in `<output_dir>/<name>` |
| Pipeline.TempInputPath | app.py:245-248 | the temporary input keeps the original extension |
| Pipeline.OutputDir | app.py:283-287 | with a non-empty source directory, the output directory is named `procesados` and, for a normal source directory, lies directly in it; without one it is the rendered file's directory |
| Pipeline.FinalName | app.py:295-309 | the final name has no separator; its extension is `.mp4` for video and the original extension for audio |
| Pipeline.FinalOutputPath | app.py:295-309 | the final output is `<output_dir>/<base>_procesado<ext>`: its `dirname` is the output directory, its `basename` the final name, its extension the final extension |
| Pipeline.TempInputKeepsKind | app.py:245-290 | classifying the temporary input gives the same answer as classifying the original name |
| Pipeline.SessionNamePlain | app.py:241-242 | a session name built from plain parts is a plain name |
| Pipeline.ProcessWithReaperPipeline | app.py:226-326 | the run succeeds exactly when extraction, session creation, the render lookup and the final mux or copy all succeed; a success records the original name, and its session file ends in `<session name>.rpp` |
| Pipeline.PipelineResultShape | app.py:321-326 | a success records the original name, the session path `<sessions>/<name>/<name>.rpp` and whether the input is a video |
| Pipeline.PipelineFailureOrder | app.py:256-326 | extraction, then session creation, then the render (a timeout, or the lookup's own error when no rendered file is found), then the final mux or copy: the first step that fails decides the error, and when none fails the run succeeds |
| Pipeline.PipelineSucceeds | app.py:226-326 | when every step succeeds and `<session name>.wav` was rendered, the run returns the original name, `<base>_procesado<ext>` in the output directory that render gives, the session file `<sessions>/<name>/<name>.rpp`, and whether the original is a video |
| Pipeline.PipelineOutputPlacement | app.py:283-309 | a success's output is named `<base>_procesado<ext>`; it is in `<source>/procesados` when there is a source directory, and in the session directory otherwise |
| Pipeline.Outcomes | app.py:449-462 | one outcome per submitted item, in submission order |
| Pipeline.RunBatch | app.py:449-466 | the loop collects exactly the successful results in order and reports exactly the failures in order |
| Pipeline.EveryItemAccounted | app.py:449-468 | every item is either collected or reported, so the reported count is at most the number submitted |
| Pipeline.CollectedConcat | app.py:449-466 | the results of two runs in sequence are the results of the first followed by those of the second |
| Pipeline.CollectedAround | app.py:457-466 | item `k` adds its own result, if any, between those of the items before it and those after it |
| Pipeline.FailureContained | app.py:464-465 | a failing item removes only its own result; the items before and after it are still collected |
| Pipeline.SuccessKept | app.py:457-463 | a successful item's result is collected in its place |
| Pipeline.FailuresFrom | app.py:464-465 | every reported error comes from an item whose processing failed with it |
| Pipeline.ErrorsNameTheirFiles | app.py:464-465 | each reported error names a submitted file and carries that file's own failure |
| Pipeline.ProcessFiles | app.py:449-468 | each file is processed under the environment of its own iteration; the successful files' records are collected in order, each failure is reported in order with its file's name, and results plus errors account for every file |

## Left out

- File and process I/O are parameters:
  - reading and writing files, and `tempfile`;
  - `os.makedirs`, `os.unlink` and `shutil.copy`;
  - the ffmpeg and ffprobe subprocesses (`run_ffmpeg`, `extract_audio_wav16_mono`, the mux);
  - the REAPER launch with its 300-second wait.

  The model sees only whether each step succeeded, whether the render timed out, which files exist and what the session directory lists.
- `get_audio_duration` (the ffprobe call and its 10.0 default) is not modelled. The item's `LENGTH` is a text parameter of `AddAudioToReaperSession`.
- HTTP and Google Drive: `requests.post`, `gdown.download` and `time.sleep` are parameters. These are the outcome of each attempt and the downloaded path. The sleeps are recorded as a list of seconds, not performed.
- `datetime.now()` and `time.time()` are parameters: a timestamp string, and a `real` for the session window.
- Streamlit is not modelled: messages, progress bar, uploader, `st.secrets` and `display_user_stats`. The API key is a string, empty when absent. The `disable_elevenlabs` flag is a boolean.
- The module-level gate at app.py:40-45 and app.py:259 is not threaded into `ProcessWithReaperPipeline`. Neither the isolation step nor the inserted audio item affects the returned record: the session path is fixed by the session name, and the output paths do not depend on the isolated audio.
- The collection of inputs in `main` (app.py:382-436) is not modelled; `ProcessFiles` receives the list of files and, for each, what the outside world did during its iteration. This covers the uploads, splitting the text areas into stripped lines, and calling the two readers.
- `readlines` is not modelled; the session file is a sequence of lines.
- Paths use `/` as the only separator, as `posixpath` does. The hard-coded Windows constants are kept verbatim as strings, with their backslashes.
- `Lower` folds ASCII letters only; Python's `str.lower` also folds other Unicode letters.
- `ReaperSession.AudioItem` builds the `<ITEM …>` block; it carries no contract of its own. Its text is the fixed template with the length, the base name and the file path filled in. The GUIDs stay as literal `{GENERATED_GUID}` placeholders, as in the code.
- The `audio_file` parameter of `create_reaper_session_from_template` is unused in the code, so the model drops it.
- `RegisterUserSession` requires the class invariant `Valid()`. This invariant ties the stored list to the history of registrations, kept for proofs only. The code imposes no such condition.
- The code sleeps `(k+1) × 3` seconds after failed 0-based attempt `k` (audio_utils.py:207-211), so 3, 6, 9, 12; the model records these waits.
- The code waits up to 300 s for REAPER to exit, then looks for the rendered file once (app.py:197-223); the model has no polling loop.
- A REAPER launch that raises (app.py:190-194) has no input of its own in `Environment`; such a failure is represented as `RenderTimedOut`, which changes only the error's label.
