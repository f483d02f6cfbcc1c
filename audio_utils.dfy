/**
 * The helpers of `audio_utils.py`: reading an input from a local path or a
 * Google Drive link, classifying a file as audio-only, the ElevenLabs
 * audio-isolation adapter with its retry loop, and the rolling window of
 * user-session timestamps.
 *
 * What the outside world answers (does the file exist, what did the read
 * return, what did each POST do, did the transcode succeed, what time is
 * it) is passed in as parameters.
 */
module AudioUtils {
  import opened Base
  import opened Text
  import opened Paths

  // ---------------------------------------------------------------------
  // get_bytes_from_local_path
  // ---------------------------------------------------------------------

  /** The triple `(bytes, file_name, source_dir)` returned for a local path. */
  datatype LocalFile = LocalFile(content: seq<byte>, name: string, sourceDir: string)

  /**
   * Reads the file at `path`. `present` is `os.path.exists(path)`; `read` is
   * what reading the file gave, `None` when the read raised. A missing file or
   * a failing read yields `None`.
   */
  function GetBytesFromLocalPath(path: string, present: bool, read: Option<seq<byte>>): (r: Option<LocalFile>)
    ensures r.None? <==> !present || read.None?
    ensures r.Some? ==> r.value.content == read.value
    ensures r.Some? ==> Sep !in r.value.name && EndsWith(path, r.value.name)
    ensures r.Some? ==> NormalDir(r.value.sourceDir)
    ensures r.Some? ==> r.value.name == Basename(path) && r.value.sourceDir == Dirname(path)
  {
    if !present then None
    else match read
      case None => None
      case Some(bytes) =>
        Some(LocalFile(bytes, Basename(path), Dirname(path)))
  }

  /** A path built as `join(dir, name)` comes back as that name and that directory. */
  lemma LocalFileParts(dir: string, name: string, bytes: seq<byte>)
    requires NormalDir(dir) && name != "" && Sep !in name
    ensures GetBytesFromLocalPath(Join(dir, name), true, Some(bytes)) == Some(LocalFile(bytes, name, dir))
  {
    JoinSplitsBack(dir, name);
  }

  /** A bare file name has an empty source directory. */
  lemma LocalFileBareName(name: string, bytes: seq<byte>)
    requires name != "" && Sep !in name
    ensures GetBytesFromLocalPath(name, true, Some(bytes)) == Some(LocalFile(bytes, name, ""))
  {
    assert Join("", name) == name;
    LocalFileParts("", name, bytes);
  }

  // ---------------------------------------------------------------------
  // get_bytes_from_drive
  // ---------------------------------------------------------------------

  const IdMarker: string := "id="
  const FileMarker: string := "/file/d/"
  const DriveHost: string := "https://drive.google.com/uc?"

  /**
   * The file id of a Google Drive link: after the first `id=` up to the next
   * `&` (a query link), otherwise after the first `/file/d/` up to the next
   * `/` (a sharing link); `None` when the link has neither marker.
   */
  function DriveFileId(url: string): (id: Option<string>)
    ensures id.None? <==> !Contains(url, IdMarker) && !Contains(url, FileMarker)
  {
    if Contains(url, IdMarker) then
      SplitCount(url, IdMarker);
      Some(Split(Split(url, IdMarker)[1], "&")[0])
    else if Contains(url, FileMarker) then
      SplitCount(url, FileMarker);
      Some(Split(Split(url, FileMarker)[1], "/")[0])
    else None
  }

  /** `i` is where `pat` first occurs in `s`. */
  predicate FirstAt(s: string, pat: string, i: nat)
  {
    OccursAt(s, pat, i) && forall j: nat :: j < i ==> !OccursAt(s, pat, j)
  }

  lemma FirstAtIsIndexOf(s: string, pat: string, i: nat)
    requires FirstAt(s, pat, i)
    ensures IndexOf(s, pat) == Some(i)
  {
    IndexOfFirst(s, pat);
    assert Contains(s, pat);
  }

  /** A text containing `pat` in a prefix contains it. */
  lemma ContainsPrefix(s: string, t: string, pat: string)
    requires t <= s && |pat| > 0 && Contains(t, pat)
    ensures Contains(s, pat)
  {
    assert s[..|t|] == t;
    PrefixOccurrence(s, pat, |t|);
  }

  /**
   * A query link: the id starts right after the first `id=`, contains neither
   * `&` nor `id=`, and ends where the link ends or where an `&` or another
   * `id=` begins.
   */
  lemma {:induction false} DriveIdOfQueryLink(url: string, i: nat)
    requires FirstAt(url, IdMarker, i)
    ensures DriveFileId(url).Some?
    ensures var id, rest := DriveFileId(url).value, url[i + |IdMarker|..];
      && id <= rest
      && !Contains(id, "&") && !Contains(id, IdMarker)
      && (|id| == |rest| || rest[|id|] == '&' || IdMarker <= rest[|id|..])
  {
    FirstAtIsIndexOf(url, IdMarker, i);
    assert Contains(url, IdMarker);
    var rest := url[i + |IdMarker|..];
    SplitSecond(url, IdMarker);
    var seg := Split(rest, IdMarker)[0];
    assert Split(url, IdMarker)[1] == seg;
    SplitHead(rest, IdMarker);
    SplitPiecesFree(rest, IdMarker);
    var id := Split(seg, "&")[0];
    assert DriveFileId(url).value == id;
    SplitHead(seg, "&");
    SplitPiecesFree(seg, "&");
    assert !Contains(id, "&");
    if Contains(id, IdMarker) {
      ContainsPrefix(seg, id, IdMarker);
      assert false;
    }
    if |id| < |seg| {
      assert "&" <= seg[|id|..];
      assert rest[|id|] == seg[|id|];
    } else if |seg| < |rest| {
      assert id == seg;
      assert rest[|id|..] == rest[|seg|..];
    }
  }

  /**
   * A sharing link without any `id=`: the id starts right after the first
   * `/file/d/`, contains no `/`, and ends where the link ends or at a `/`.
   */
  lemma {:induction false} DriveIdOfSharingLink(url: string, i: nat)
    requires !Contains(url, IdMarker) && FirstAt(url, FileMarker, i)
    ensures DriveFileId(url).Some?
    ensures var id, rest := DriveFileId(url).value, url[i + |FileMarker|..];
      && id <= rest
      && !Contains(id, "/")
      && (|id| == |rest| || rest[|id|] == '/')
  {
    FirstAtIsIndexOf(url, FileMarker, i);
    assert Contains(url, FileMarker);
    var rest := url[i + |FileMarker|..];
    SplitSecond(url, FileMarker);
    var seg := Split(rest, FileMarker)[0];
    assert Split(url, FileMarker)[1] == seg;
    SplitHead(rest, FileMarker);
    var id := Split(seg, "/")[0];
    assert DriveFileId(url).value == id;
    SplitHead(seg, "/");
    SplitPiecesFree(seg, "/");
    if |id| < |seg| {
      assert "/" <= seg[|id|..];
      assert rest[|id|] == seg[|id|];
    } else if |seg| < |rest| {
      assert id == seg;
      assert FileMarker <= rest[|seg|..];
      assert rest[|id|] == FileMarker[0];
    }
  }

  /** Where `pat` does not occur at all, it does not occur at `k`. */
  lemma NotContainsAt(s: string, pat: string, k: nat)
    requires !Contains(s, pat) && k + |pat| <= |s|
    ensures s[k..k + |pat|] != pat && !(pat <= s[k..])
  {
    assert !OccursAt(s, pat, k);
    assert s[k..][..|pat|] == s[k..k + |pat|];
  }

  /** The direct-download link built from a file id. */
  function DownloadUrl(id: string): string
  {
    DriveHost + IdMarker + id
  }

  /** The download link built from an id gives that id back. */
  lemma DownloadUrlRoundTrip(id: string)
    requires !Contains(id, "&") && !Contains(id, IdMarker)
    ensures DriveFileId(DownloadUrl(id)) == Some(id)
  {
    var url := DownloadUrl(id);
    var i := |DriveHost|;
    assert OccursAt(url, IdMarker, i) by {
      assert url[i..i + |IdMarker|] == IdMarker;
    }
    assert '=' !in DriveHost;
    forall j: nat | j < i ensures !OccursAt(url, IdMarker, j) {
      if j + 2 < i {
        assert url[j + 2] == DriveHost[j + 2];
      }
      assert url[j + 2] != '=';
      assert j + 3 <= |url| ==> url[j..j + 3][2] == url[j + 2];
    }
    DriveIdOfQueryLink(url, i);
    var got := DriveFileId(url).value;
    assert url[i + |IdMarker|..] == id;
    if |got| < |id| {
      NotContainsAt(id, "&", |got|);
      assert id[|got|..|got| + 1] == [id[|got|]];
      if |got| + |IdMarker| <= |id| {
        NotContainsAt(id, IdMarker, |got|);
      }
      assert false;
    }
    assert got == id[..|got|] == id;
  }

  /** The pair `(bytes, file_name)` returned for a Drive link. */
  datatype DriveFile = DriveFile(content: seq<byte>, name: string)

  /**
   * Downloads a Drive link. `download(u)` is the local path `gdown` saved the
   * link `u` to (`None` when it failed); `read(p)` is the content read back
   * from `p` (`None` when reading raised). The file name is the downloaded
   * path's base name.
   */
  function GetBytesFromDrive(url: string, download: string -> Option<string>, read: string -> Option<seq<byte>>): (r: Option<DriveFile>)
    ensures DriveFileId(url).None? ==> r.None?
    ensures r.Some? ==> exists path :: (download(DownloadUrl(DriveFileId(url).value)) == Some(path)
      && path != "" && read(path) == Some(r.value.content) && r.value.name == Basename(path))
    ensures r.Some? ==> Sep !in r.value.name
    ensures DriveFileId(url).Some? ==>
      var path := download(DownloadUrl(DriveFileId(url).value));
      path.Some? && path.value != "" && read(path.value).Some? ==>
        r == Some(DriveFile(read(path.value).value, Basename(path.value)))
  {
    match DriveFileId(url)
    case None => None
    case Some(id) =>
      match download(DownloadUrl(id))
      case None => None
      case Some(path) =>
        if path == "" then None
        else match read(path)
          case None => None
          case Some(bytes) => Some(DriveFile(bytes, Basename(path)))
  }

  // ---------------------------------------------------------------------
  // is_audio_only_file
  // ---------------------------------------------------------------------

  const AudioExtensions: set<string> := {".mp3", ".wav", ".flac", ".m4a", ".aac", ".ogg"}

  /** A file is audio-only when its lower-cased extension is a known audio one. */
  function IsAudioOnlyFile(path: string): (audio: bool)
    ensures audio <==> Lower(Ext(path)) in AudioExtensions
  {
    ExtLower(path);
    Ext(Lower(path)) in AudioExtensions
  }

  /** Only the extension decides: a named file with extension `ext` is audio iff `ext`, lower-cased, is listed. */
  lemma AudioByExtension(q: string, ext: string)
    requires IsExtension(ext) && NamedLastComponent(q)
    ensures IsAudioOnlyFile(q + ext) <==> Lower(ext) in AudioExtensions
  {
    SplitExtAppend(q, ext);
  }

  /** Paths that differ only in letter case are classified alike. */
  lemma AudioIgnoresCase(p: string, q: string)
    requires Lower(p) == Lower(q)
    ensures IsAudioOnlyFile(p) == IsAudioOnlyFile(q)
  {
    ExtLower(p);
    ExtLower(q);
  }

  /** A path without an extension is never audio-only. */
  lemma NoExtensionNotAudio(p: string)
    requires Ext(p) == ""
    ensures !IsAudioOnlyFile(p)
  {
    assert |Lower(Ext(p))| == 0;
    EmptyNotAudioExtension();
  }

  lemma EmptyNotAudioExtension()
    ensures "" !in AudioExtensions
  {
  }

  // ---------------------------------------------------------------------
  // process_audio_with_elevenlabs
  // ---------------------------------------------------------------------

  /** What one POST to the isolation endpoint did. */
  datatype Attempt =
    | Response(status: int)
    | ConnectionError
    | Timeout
    | OtherError

  /** Connection errors and timeouts are retried; everything else ends the loop. */
  predicate Transient(a: Attempt)
  {
    a.ConnectionError? || a.Timeout?
  }

  /** Which branch of the adapter was taken. */
  datatype Notice =
    | KeyMissing
    | Disabled
    | ConnectionExhausted
    | Isolated
    | AuthFailed
    | NotAvailable
    | RateLimited
    | ApiError(code: int)
    | Failed

  /**
   * One run of the adapter: the path it returns, how many POSTs it made, the
   * sleeps (in seconds) between them, and the branch that ended it.
   */
  datatype IsolationRun = IsolationRun(output: string, posts: nat, waits: seq<nat>, notice: Notice)

  const MaxRetries: nat := 5
  const ElevenDir: string := "F:\\00\\00 Reaper\\Eleven"

  /** The sleep after the failed attempt `k` (0-based). */
  function Backoff(k: nat): nat
  {
    (k + 1) * 3
  }

  /** The sleeps after the first `n` failed attempts. */
  function Waits(n: nat): (w: seq<nat>)
    ensures |w| == n && forall i :: 0 <= i < n ==> w[i] == Backoff(i)
  {
    if n == 0 then [] else Waits(n - 1) + [Backoff(n - 1)]
  }

  /** Where a successful isolation is written. */
  function IsolatedPath(timestamp: string): string
  {
    Join(ElevenDir, "elevenlabs_" + timestamp + ".wav")
  }

  /** The first attempt from `k` on that is not retried, if any before `MaxRetries`. */
  function FirstSettled(outcome: nat -> Attempt, k: nat): (r: Option<nat>)
    ensures r.Some? ==> k <= r.value < MaxRetries && !Transient(outcome(r.value))
    ensures r.Some? ==> forall j :: k <= j < r.value ==> Transient(outcome(j))
    ensures r.None? ==> forall j :: k <= j < MaxRetries ==> Transient(outcome(j))
    decreases MaxRetries - k
  {
    if k >= MaxRetries then None
    else if !Transient(outcome(k)) then Some(k)
    else FirstSettled(outcome, k + 1)
  }

  /**
   * The adapter's behaviour. `apiKey` is the configured key (`""` when absent),
   * `disabled` the session's `disable_elevenlabs` flag, `readable` whether the
   * input could be opened, `outcome(k)` what POST number `k` did, `timestamp`
   * the clock at the 200 branch and `transcodeOk` whether saving and the
   * ffmpeg conversion of the response succeeded.
   */
  function Isolate(audioFile: string, apiKey: string, disabled: bool, readable: bool,
                   outcome: nat -> Attempt, timestamp: string, transcodeOk: bool): IsolationRun
  {
    if apiKey == "" then IsolationRun(audioFile, 0, [], KeyMissing)
    else if disabled then IsolationRun(audioFile, 0, [], Disabled)
    else if !readable then IsolationRun(audioFile, 0, [], Failed)
    else match FirstSettled(outcome, 0)
      case None => IsolationRun(audioFile, MaxRetries, Waits(MaxRetries - 1), ConnectionExhausted)
      case Some(k) => Settle(audioFile, outcome(k), k + 1, Waits(k), timestamp, transcodeOk)
  }

  /** The dispatch after the retry loop, on the attempt that ended it. */
  function Settle(audioFile: string, a: Attempt, posts: nat, waits: seq<nat>, timestamp: string, transcodeOk: bool): (run: IsolationRun)
    ensures run.posts == posts && run.waits == waits
    ensures run.notice == Isolated <==> a == Response(200) && transcodeOk
    ensures run.output == if run.notice == Isolated then IsolatedPath(timestamp) else audioFile
  {
    match a
    case Response(status) =>
      if status == 200 then
        if transcodeOk then IsolationRun(IsolatedPath(timestamp), posts, waits, Isolated)
        else IsolationRun(audioFile, posts, waits, Failed)
      else if status == 401 then IsolationRun(audioFile, posts, waits, AuthFailed)
      else if status == 404 then IsolationRun(audioFile, posts, waits, NotAvailable)
      else if status == 429 then IsolationRun(audioFile, posts, waits, RateLimited)
      else IsolationRun(audioFile, posts, waits, ApiError(status))
    case _ => IsolationRun(audioFile, posts, waits, Failed)
  }

  /**
   * `process_audio_with_elevenlabs`: the key and flag checks, then up to
   * `MaxRetries` POSTs, sleeping `Backoff(k)` after a retried failure of
   * attempt `k` unless it was the last one, then the status dispatch.
   */
  method ProcessAudioWithElevenLabs(audioFile: string, apiKey: string, disabled: bool, readable: bool,
                                    outcome: nat -> Attempt, timestamp: string, transcodeOk: bool)
    returns (run: IsolationRun)
    ensures run == Isolate(audioFile, apiKey, disabled, readable, outcome, timestamp, transcodeOk)
  {
    if apiKey == "" {
      return IsolationRun(audioFile, 0, [], KeyMissing);
    }
    if disabled {
      return IsolationRun(audioFile, 0, [], Disabled);
    }
    if !readable {
      return IsolationRun(audioFile, 0, [], Failed);
    }
    var waits: seq<nat> := [];
    var response := OtherError;
    var posts := 0;
    for attempt := 0 to MaxRetries
      invariant attempt < MaxRetries
      invariant waits == Waits(attempt)
      invariant FirstSettled(outcome, 0) == FirstSettled(outcome, attempt)
    {
      var a := outcome(attempt);
      if !Transient(a) {
        response, posts := a, attempt + 1;
        break;
      }
      if attempt < MaxRetries - 1 {
        waits := waits + [Backoff(attempt)];
      } else {
        return IsolationRun(audioFile, MaxRetries, waits, ConnectionExhausted);
      }
    }
    run := Settle(audioFile, response, posts, waits, timestamp, transcodeOk);
  }

  /** No POST is made exactly when the key is missing, the adapter is disabled or the input cannot be opened. */
  lemma NoRequestWhenSwitchedOff(audioFile: string, apiKey: string, disabled: bool, readable: bool,
                                 outcome: nat -> Attempt, timestamp: string, transcodeOk: bool)
    ensures var run := Isolate(audioFile, apiKey, disabled, readable, outcome, timestamp, transcodeOk);
      (run.posts == 0 <==> apiKey == "" || disabled || !readable)
      && (run.posts == 0 ==> run.output == audioFile && run.waits == [])
  {
  }

  /**
   * At most `MaxRetries` POSTs; the attempts before the last one all failed
   * with a retried error; one sleep, of `3 * (k + 1)` seconds, follows each
   * failed attempt `k` except the last.
   */
  lemma RetriesBounded(audioFile: string, apiKey: string, disabled: bool, readable: bool,
                       outcome: nat -> Attempt, timestamp: string, transcodeOk: bool)
    ensures var run := Isolate(audioFile, apiKey, disabled, readable, outcome, timestamp, transcodeOk);
      && run.posts <= MaxRetries
      && (run.posts > 0 ==> |run.waits| == run.posts - 1)
      && (forall i :: 0 <= i < |run.waits| ==> run.waits[i] == 3 * (i + 1))
      && (forall j :: 0 <= j < run.posts - 1 ==> Transient(outcome(j)))
  {
  }

  /**
   * The loop gives up, without a final sleep, exactly when all five attempts
   * fail with a retried error; the sleeps are then 3, 6, 9 and 12 seconds.
   */
  lemma ExhaustionAfterFiveFailures(audioFile: string, apiKey: string, readable: bool,
                                    outcome: nat -> Attempt, timestamp: string, transcodeOk: bool)
    requires apiKey != "" && readable
    ensures var run := Isolate(audioFile, apiKey, false, readable, outcome, timestamp, transcodeOk);
      run.notice == ConnectionExhausted
      <==> forall j :: 0 <= j < MaxRetries ==> Transient(outcome(j))
    ensures var run := Isolate(audioFile, apiKey, false, readable, outcome, timestamp, transcodeOk);
      run.notice == ConnectionExhausted ==> run.posts == MaxRetries && run.waits == [3, 6, 9, 12] && run.output == audioFile
  {
    var run := Isolate(audioFile, apiKey, false, readable, outcome, timestamp, transcodeOk);
    match FirstSettled(outcome, 0)
    case None =>
    case Some(k) =>
      assert !Transient(outcome(k));
      assert run.notice != ConnectionExhausted;
  }

  /** Sleeps grow strictly, and one run sleeps at most 30 seconds in total. */
  lemma WaitsGrowAndStayShort(n: nat)
    requires n < MaxRetries
    ensures forall i, j :: 0 <= i < j < n ==> Waits(n)[i] < Waits(n)[j]
    ensures Total(Waits(n)) <= 30
  {
    assert Waits(0) == [];
    assert Waits(1) == [3];
    assert Waits(2) == [3, 6];
    assert Waits(3) == [3, 6, 9];
    assert Waits(4) == [3, 6, 9, 12];
  }

  /** The sum of a sequence of seconds. */
  function Total(w: seq<nat>): nat
  {
    if |w| == 0 then 0 else Total(w[..|w| - 1]) + w[|w| - 1]
  }

  /**
   * The input path comes back unchanged on every branch but one: a 200
   * response whose content was converted, which yields the fixed
   * `elevenlabs_<timestamp>.wav` path. No branch after a response retries.
   */
  lemma OnlySuccessChangesPath(audioFile: string, apiKey: string, disabled: bool, readable: bool,
                               outcome: nat -> Attempt, timestamp: string, transcodeOk: bool)
    ensures var run := Isolate(audioFile, apiKey, disabled, readable, outcome, timestamp, transcodeOk);
      && (run.notice == Isolated ==> run.output == IsolatedPath(timestamp))
      && (run.notice != Isolated ==> run.output == audioFile)
      && (run.notice == Isolated <==>
            apiKey != "" && !disabled && readable && transcodeOk
            && run.posts > 0 && outcome(run.posts - 1) == Response(200))
  {
    var run := Isolate(audioFile, apiKey, disabled, readable, outcome, timestamp, transcodeOk);
    if apiKey != "" && !disabled && readable {
      match FirstSettled(outcome, 0)
      case None =>
        assert Transient(outcome(run.posts - 1));
      case Some(k) =>
    }
  }

  /** Once a POST gets any response, it is the last POST, whatever the status. */
  lemma ResponseEndsRetries(audioFile: string, apiKey: string, readable: bool,
                            outcome: nat -> Attempt, timestamp: string, transcodeOk: bool, k: nat)
    requires apiKey != "" && readable && k < MaxRetries && outcome(k).Response?
    requires forall j :: 0 <= j < k ==> Transient(outcome(j))
    ensures Isolate(audioFile, apiKey, false, readable, outcome, timestamp, transcodeOk).posts == k + 1
  {
    FirstSettledAt(outcome, 0, k);
  }

  lemma {:induction false} FirstSettledAt(outcome: nat -> Attempt, from: nat, k: nat)
    requires from <= k < MaxRetries && !Transient(outcome(k))
    requires forall j :: from <= j < k ==> Transient(outcome(j))
    ensures FirstSettled(outcome, from) == Some(k)
    decreases k - from
  {
    if from < k {
      FirstSettledAt(outcome, from + 1, k);
    }
  }

  // ---------------------------------------------------------------------
  // register_user_session
  // ---------------------------------------------------------------------

  const MaxSessions: nat := 100

  /** The most recent `n` entries of `s`, in order. */
  function Recent<T>(s: seq<T>, n: nat): (r: seq<T>)
    ensures |r| == if |s| <= n then |s| else n
    ensures r == s[|s| - |r|..]
  {
    if |s| > n then s[|s| - n..] else s
  }

  /** Keeping a window, appending, and keeping it again keeps the window of everything. */
  lemma RecentAppend<T>(s: seq<T>, x: T, n: nat)
    requires n > 0
    ensures Recent(Recent(s, n) + [x], n) == Recent(s + [x], n)
  {
    var w := Recent(s, n);
    assert (s + [x])[|s + [x]| - |Recent(s + [x], n)|..] == Recent(s + [x], n);
    if |s| >= n {
      assert Recent(w + [x], n) == w[1..] + [x];
      assert s[|s| - n..][1..] == s[|s| - n + 1..];
      assert (s + [x])[|s| + 1 - n..] == s[|s| - n + 1..] + [x];
    }
  }

  /**
   * The Streamlit session state the statistics live in: `userSessions` is
   * `None` while the `user_sessions` key is absent. `registered` is every
   * timestamp registered so far, kept for the proofs only.
   */
  class SessionState {
    var userSessions: Option<seq<real>>
    ghost var registered: seq<real>

    /** The stored list is the most recent `MaxSessions` timestamps ever registered. */
    ghost predicate Valid()
      reads this
    {
      userSessions.UnwrapOr([]) == Recent(registered, MaxSessions)
    }

    /** A fresh session state, without the `user_sessions` key. */
    constructor ()
      ensures userSessions == None && registered == []
      ensures Valid()
    {
      userSessions := None;
      registered := [];
    }

    /**
     * `register_user_session(now)`: creates the list if absent, appends the
     * timestamp and keeps only the last `MaxSessions` entries.
     */
    method RegisterUserSession(now: real)
      requires Valid()
      modifies this
      ensures userSessions == Some(Recent(old(userSessions).UnwrapOr([]) + [now], MaxSessions))
      ensures registered == old(registered) + [now]
      ensures Valid()
      ensures |userSessions.value| <= MaxSessions
      ensures userSessions.value[|userSessions.value| - 1] == now
    {
      if userSessions.None? {
        userSessions := Some([]);
      }
      var sessions := userSessions.value + [now];
      if |sessions| > MaxSessions {
        sessions := sessions[|sessions| - MaxSessions..];
      }
      userSessions := Some(sessions);
      registered := registered + [now];
      RecentAppend(old(registered), now, MaxSessions);
    }
  }
}
