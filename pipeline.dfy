/**
 * `process_with_reaper_pipeline` and the batch loop of `main` in `app.py`:
 * the names and paths one file's processing derives (session name,
 * temporary input, output directory, final output), the order in which its
 * steps can fail, and the loop that runs every submitted file and keeps the
 * results of those that succeeded.
 */
module Pipeline {
  import opened Base
  import opened Text
  import opened Paths
  import opened AudioUtils
  import opened ReaperSession

  /** Where sessions are created. */
  const ReaperSessionsDir: string := "F:\\CURSOS\\2025\\Q3"

  /** One file to process: its bytes, its name and, for local paths, the directory it came from. */
  datatype FileData = FileData(content: seq<byte>, name: string, sourceDir: Option<string>)

  /** The dictionary returned for a processed file. */
  datatype PipelineResult = PipelineResult(originalName: string, outputFile: string, reaperSession: string, isVideo: bool)

  /** The exception that ended one file's processing. */
  datatype PipelineFailure =
    | ExtractFailed
    | SessionFailed
    | RenderFailed(reason: RenderError)
    | FinishFailed

  /**
   * What the outside world does while one file is processed: the clock, the
   * temporary file's directory and random token, the template's text,
   * whether extraction, the session files and the final mux or copy succeed,
   * and what the render left on disk.
   */
  datatype Environment = Environment(
    timestamp: string,
    tempDir: string,
    tempToken: string,
    template: string,
    extractOk: bool,
    sessionOk: bool,
    renderTimedOut: bool,
    present: string -> bool,
    listing: seq<string>,
    finishOk: bool)

  /** The session name: the original name without its extension, `_`, the timestamp. */
  function SessionName(originalName: string, timestamp: string): string
  {
    Root(originalName) + "_" + timestamp
  }

  /** The temporary copy of the input: `tmp<token>` plus the original extension, in the temp directory. */
  function TempInputPath(tempDir: string, tempToken: string, originalName: string): (path: string)
    ensures PlainToken(tempToken) ==> Ext(path) == Ext(originalName)
  {
    TempNameKeepsExt(tempDir, tempToken, originalName);
    Join(tempDir, "tmp" + tempToken + Ext(originalName))
  }

  /** The subdirectory of the source directory that receives the outputs. */
  const ProcessedSubdir: string := "procesados"

  lemma ProcessedSubdirPlain()
    ensures ProcessedSubdir != "" && Sep !in ProcessedSubdir
  {
  }

  /** `procesados` under the source directory when there is one, otherwise the render's directory. */
  function OutputDir(sourceDir: Option<string>, renderedAudio: string): (dir: string)
    ensures sourceDir.Some? && sourceDir.value != "" ==>
      && Basename(dir) == ProcessedSubdir
      && (NormalDir(sourceDir.value) ==> Dirname(dir) == sourceDir.value)
    ensures sourceDir.None? || sourceDir.value == "" ==> dir == Dirname(renderedAudio)
  {
    if sourceDir.Some? && sourceDir.value != "" then
      ProcessedLayout(sourceDir.value);
      Join(sourceDir.value, ProcessedSubdir)
    else Dirname(renderedAudio)
  }

  /** `procesados` joined under a directory splits back into that directory and `procesados`. */
  lemma ProcessedLayout(sourceDir: string)
    ensures Basename(Join(sourceDir, ProcessedSubdir)) == ProcessedSubdir
    ensures NormalDir(sourceDir) ==> Dirname(Join(sourceDir, ProcessedSubdir)) == sourceDir
  {
    ProcessedSubdirPlain();
    JoinBasename(sourceDir, ProcessedSubdir);
    if NormalDir(sourceDir) {
      JoinSplitsBack(sourceDir, ProcessedSubdir);
    }
  }

  /** The extension the final output gets. */
  function FinalExt(originalName: string, isVideo: bool): string
  {
    if isVideo then ".mp4" else Ext(originalName)
  }

  /** `<base>_procesado.mp4` for a video, `<base>_procesado<ext>` for audio, in the output directory. */
  function FinalOutputPath(outputDir: string, originalName: string, isVideo: bool): (out: string)
    ensures NormalDir(outputDir) && Sep !in originalName ==>
      && Dirname(out) == outputDir
      && Basename(out) == FinalName(originalName, isVideo)
      && Ext(out) == FinalExt(originalName, isVideo)
  {
    FinalPathLayout(outputDir, originalName, isVideo);
    Join(outputDir, FinalName(originalName, isVideo))
  }

  /** The final name joined under a normal directory splits back into both and keeps its extension. */
  lemma FinalPathLayout(outputDir: string, originalName: string, isVideo: bool)
    ensures NormalDir(outputDir) && Sep !in originalName ==>
      var out := Join(outputDir, FinalName(originalName, isVideo));
      && Dirname(out) == outputDir
      && Basename(out) == FinalName(originalName, isVideo)
      && Ext(out) == FinalExt(originalName, isVideo)
  {
    if NormalDir(outputDir) && Sep !in originalName {
      var name := FinalName(originalName, isVideo);
      JoinSplitsBack(outputDir, name);
      ExtOfJoin(outputDir, name);
    }
  }

  /** The final output's file name: no separator, and the extension `FinalExt` gives. */
  function FinalName(originalName: string, isVideo: bool): (name: string)
    ensures Sep !in originalName ==> Sep !in name && name != "" && Ext(name) == FinalExt(originalName, isVideo)
  {
    FinalStemExt(originalName, isVideo);
    Root(originalName) + "_procesado" + FinalExt(originalName, isVideo)
  }

  /**
   * One file through the pipeline: save and extract, create the session and
   * add the audio, render, then mux (video) or copy (audio) to the final
   * output. An exception in a step ends the file's processing.
   */
  function ProcessWithReaperPipeline(file: FileData, env: Environment): (r: Result<PipelineResult, PipelineFailure>)
    ensures r.Ok? ==> env.extractOk && env.sessionOk && !env.renderTimedOut && env.finishOk
    ensures r.Ok? ==> r.value.originalName == file.name
    ensures r.Ok? ==> EndsWith(r.value.reaperSession, SessionName(file.name, env.timestamp) + ".rpp")
    ensures r.Ok? <==>
      && env.extractOk && env.sessionOk && env.finishOk
      && RenderedFile(CreateReaperSessionFromTemplate(env.template, SessionName(file.name, env.timestamp), ReaperSessionsDir).path,
                      env.renderTimedOut, env.present, env.listing).Ok?
  {
    var sessionName := SessionName(file.name, env.timestamp);
    var tmpInput := TempInputPath(env.tempDir, env.tempToken, file.name);
    if !env.extractOk then Err(ExtractFailed)
    else if !env.sessionOk then Err(SessionFailed)
    else
      var session := CreateReaperSessionFromTemplate(env.template, sessionName, ReaperSessionsDir);
      match RenderedFile(session.path, env.renderTimedOut, env.present, env.listing)
      case Err(reason) => Err(RenderFailed(reason))
      case Ok(rendered) =>
        var isVideo := !IsAudioOnlyFile(tmpInput);
        var finalOut := FinalOutputPath(OutputDir(file.sourceDir, rendered), file.name, isVideo);
        if !env.finishOk then Err(FinishFailed)
        else Ok(PipelineResult(file.name, finalOut, session.path, isVideo))
  }

  /** A plain token has neither dots nor separators, as `tempfile`'s random names. */
  predicate PlainToken(token: string)
  {
    '.' !in token && Sep !in token
  }

  /** A stem followed by an extension `splitext` could return keeps that extension. */
  lemma StemKeepsExt(stem: string, ext: string)
    requires stem != "" && stem[|stem| - 1] != '.' && Sep !in stem
    requires ext == "" || IsExtension(ext)
    requires ext == "" ==> Ext(stem) == ""
    ensures Ext(stem + ext) == ext
  {
    if ext == "" {
      assert stem + ext == stem;
    } else {
      assert stem[|stem| - 1] != Sep;
      SplitExtAppend(stem, ext);
    }
  }

  /** `tmp<token>` plus the original extension, joined under a directory, keeps that extension. */
  lemma TempNameKeepsExt(tempDir: string, tempToken: string, originalName: string)
    ensures PlainToken(tempToken) ==> Ext(Join(tempDir, "tmp" + tempToken + Ext(originalName))) == Ext(originalName)
  {
    if !PlainToken(tempToken) {
      return;
    }
    var stem := "tmp" + tempToken;
    var ext := Ext(originalName);
    assert Sep !in stem && '.' !in stem;
    if ext == "" {
      assert LastIndexOf(stem, '.') == None;
    } else {
      assert stem[|stem| - 1] != '.' by {
        if |tempToken| > 0 { assert stem[|stem| - 1] == tempToken[|tempToken| - 1]; }
      }
    }
    StemKeepsExt(stem, ext);
    assert Sep !in stem + ext;
    ExtOfJoin(tempDir, stem + ext);
  }

  /** The temporary copy is classified as audio or video exactly as the original name is. */
  lemma TempInputKeepsKind(tempDir: string, tempToken: string, originalName: string)
    requires PlainToken(tempToken)
    ensures IsAudioOnlyFile(TempInputPath(tempDir, tempToken, originalName)) == IsAudioOnlyFile(originalName)
  {
  }

  /** The root of a name without a separator has none either. */
  lemma RootPlain(name: string)
    requires Sep !in name
    ensures Sep !in Root(name) && Root(name) <= name
  {
    assert Root(name) + Ext(name) == name;
    assert forall i :: 0 <= i < |Root(name)| ==> Root(name)[i] == name[i];
  }

  /** `<base>_procesado` followed by the final extension keeps that extension. */
  lemma FinalStemExt(originalName: string, isVideo: bool)
    ensures Sep !in originalName ==>
      var name := Root(originalName) + "_procesado" + FinalExt(originalName, isVideo);
      Sep !in name && name != "" && Ext(name) == FinalExt(originalName, isVideo)
  {
    if Sep !in originalName {
      FinalStemExtPlain(originalName, isVideo);
    }
  }

  lemma FinalStemExtPlain(originalName: string, isVideo: bool)
    requires Sep !in originalName
    ensures var name := Root(originalName) + "_procesado" + FinalExt(originalName, isVideo);
      Sep !in name && name != "" && Ext(name) == FinalExt(originalName, isVideo)
  {
    var stem := Root(originalName) + "_procesado";
    var ext := FinalExt(originalName, isVideo);
    RootPlain(originalName);
    assert Sep !in stem;
    if ext == "" {
      assert Root(originalName) == originalName;
      ExtAppendPlain(originalName, "_procesado");
    }
    assert stem[|stem| - 1] == 'o';
    if isVideo {
      assert IsExtension(ext) by {
        assert ext[1..] == "mp4";
      }
    }
    StemKeepsExt(stem, ext);
    assert Root(originalName) + "_procesado" + ext == stem + ext;
  }

  /** A session name made from a plain file name and timestamp is a plain name. */
  lemma SessionNamePlain(originalName: string, timestamp: string)
    requires Sep !in originalName && Sep !in timestamp
    ensures PlainName(SessionName(originalName, timestamp))
  {
    RootPlain(originalName);
    var name := SessionName(originalName, timestamp);
    assert name == Root(originalName) + "_" + timestamp;
    assert name[|Root(originalName)|] != '.';
    assert forall i :: 0 <= i < |name| ==> name[i] != Sep by {
      forall i | 0 <= i < |name| ensures name[i] != Sep {
        if i < |Root(originalName)| {
          assert name[i] == Root(originalName)[i];
        } else if i > |Root(originalName)| {
          assert name[i] == timestamp[i - |Root(originalName)| - 1];
        }
      }
    }
  }

  /**
   * What a successful run returns: the original name, the session file
   * `<sessions dir>/<session name>/<session name>.rpp`, and whether the input
   * is a video, decided by the original name's extension.
   */
  lemma PipelineResultShape(file: FileData, env: Environment)
    requires PlainToken(env.tempToken)
    ensures var r := ProcessWithReaperPipeline(file, env);
      var sessionName := SessionName(file.name, env.timestamp);
      r.Ok? ==>
        && r.value.originalName == file.name
        && r.value.reaperSession == Join(Join(ReaperSessionsDir, sessionName), sessionName + ".rpp")
        && r.value.isVideo == !IsAudioOnlyFile(file.name)
  {
    TempInputKeepsKind(env.tempDir, env.tempToken, file.name);
  }

  /**
   * Steps fail in order: extraction, then the session files, then the render
   * (timed out or no rendered file found), then the final mux or copy; when
   * none of them fails the run succeeds.
   */
  lemma PipelineFailureOrder(file: FileData, env: Environment)
    ensures var r := ProcessWithReaperPipeline(file, env);
      var session := CreateReaperSessionFromTemplate(env.template, SessionName(file.name, env.timestamp), ReaperSessionsDir);
      var rendered := RenderedFile(session.path, env.renderTimedOut, env.present, env.listing);
      && (!env.extractOk ==> r == Err(ExtractFailed))
      && (env.extractOk && !env.sessionOk ==> r == Err(SessionFailed))
      && (env.extractOk && env.sessionOk && env.renderTimedOut ==> r == Err(RenderFailed(RenderTimedOut)))
      && (env.extractOk && env.sessionOk && rendered.Err? ==> r == Err(RenderFailed(rendered.error)))
      && (env.extractOk && env.sessionOk && rendered.Ok? && !env.finishOk ==> r == Err(FinishFailed))
      && (env.extractOk && env.sessionOk && rendered.Ok? && env.finishOk ==> r.Ok?)
  {
  }

  /**
   * The whole run when every step succeeds and REAPER rendered
   * `<session name>.wav`: the result records the original name, the output
   * named after it in the output directory that render gives, the session
   * file `<sessions dir>/<session name>/<session name>.rpp`, and whether the
   * original is a video.
   */
  lemma PipelineSucceeds(file: FileData, env: Environment)
    requires env.extractOk && env.sessionOk && !env.renderTimedOut && env.finishOk
    requires PlainToken(env.tempToken) && Sep !in file.name && Sep !in env.timestamp
    requires var sessionName := SessionName(file.name, env.timestamp);
      env.present(Join(SessionDir(ReaperSessionsDir, sessionName), sessionName + ".wav"))
    ensures var sessionName := SessionName(file.name, env.timestamp);
      var sessionDir := SessionDir(ReaperSessionsDir, sessionName);
      var isVideo := !IsAudioOnlyFile(file.name);
      ProcessWithReaperPipeline(file, env) == Ok(PipelineResult(
        file.name,
        FinalOutputPath(OutputDir(file.sourceDir, Join(sessionDir, sessionName + ".wav")), file.name, isVideo),
        Join(sessionDir, sessionName + ".rpp"),
        isVideo))
  {
    var sessionName := SessionName(file.name, env.timestamp);
    SessionNamePlain(file.name, env.timestamp);
    SessionLayout(env.template, sessionName, ReaperSessionsDir);
    var path := CreateReaperSessionFromTemplate(env.template, sessionName, ReaperSessionsDir).path;
    PlainWavPreferred(path, env.present, env.listing);
    TempInputKeepsKind(env.tempDir, env.tempToken, file.name);
  }

  /**
   * With a source directory the output goes to its `procesados`
   * subdirectory; without one it goes next to the render, which is the
   * session's own directory. Either way it is named after the original.
   */
  lemma PipelineOutputPlacement(file: FileData, env: Environment)
    requires Sep !in file.name && Sep !in env.timestamp
    requires forall i :: 0 <= i < |env.listing| ==> Sep !in env.listing[i]
    ensures var r := ProcessWithReaperPipeline(file, env);
      var sessionName := SessionName(file.name, env.timestamp);
      r.Ok? ==>
        && Basename(r.value.outputFile) == FinalName(file.name, r.value.isVideo)
        && Dirname(r.value.outputFile) ==
             if file.sourceDir.Some? && file.sourceDir.value != "" then Join(file.sourceDir.value, ProcessedSubdir)
             else SessionDir(ReaperSessionsDir, sessionName)
  {
    var r := ProcessWithReaperPipeline(file, env);
    if r.Ok? {
      var sessionName := SessionName(file.name, env.timestamp);
      var session := CreateReaperSessionFromTemplate(env.template, sessionName, ReaperSessionsDir);
      var rendered := RenderedFile(session.path, env.renderTimedOut, env.present, env.listing);
      assert rendered.Ok?;
      var outputDir := OutputDir(file.sourceDir, rendered.value);
      assert r.value.outputFile == FinalOutputPath(outputDir, file.name, r.value.isVideo);
      if file.sourceDir.Some? && file.sourceDir.value != "" {
        ProcessedSubdirPlain();
        JoinNormal(file.sourceDir.value, ProcessedSubdir);
      } else {
        SessionNamePlain(file.name, env.timestamp);
        RenderFoundInSessionDir(env.template, sessionName, ReaperSessionsDir, env.renderTimedOut, env.present, env.listing);
      }
    }
  }

  // ---------------------------------------------------------------------
  // The batch loop of `main`
  // ---------------------------------------------------------------------

  /** What each item's step gave, in submission order. */
  function Outcomes<I, R, E>(items: seq<I>, step: I -> Result<R, E>): (os: seq<Result<R, E>>)
    ensures |os| == |items|
    ensures forall i :: 0 <= i < |items| ==> os[i] == step(items[i])
  {
    if |items| == 0 then [] else Outcomes(items[..|items| - 1], step) + [step(items[|items| - 1])]
  }

  /** The result an outcome contributes: its value when it succeeded, nothing otherwise. */
  function Kept<R, E>(o: Result<R, E>): seq<R>
  {
    if o.Ok? then [o.value] else []
  }

  /** The values of the successful outcomes, in order. */
  function Collected<R, E>(os: seq<Result<R, E>>): seq<R>
  {
    if |os| == 0 then [] else Collected(os[..|os| - 1]) + Kept(os[|os| - 1])
  }

  /** The errors of the failed outcomes, in order. */
  function Failures<R, E>(os: seq<Result<R, E>>): seq<E>
  {
    if |os| == 0 then []
    else Failures(os[..|os| - 1]) + (if os[|os| - 1].Err? then [os[|os| - 1].error] else [])
  }

  /**
   * The loop of `main`: every item is processed, in order; a success is
   * appended to the results, a failure is reported and the loop goes on.
   */
  method RunBatch<I, R, E>(items: seq<I>, step: I -> Result<R, E>) returns (results: seq<R>, errors: seq<E>)
    ensures results == Collected(Outcomes(items, step))
    ensures errors == Failures(Outcomes(items, step))
  {
    results, errors := [], [];
    for idx := 0 to |items|
      invariant results == Collected(Outcomes(items[..idx], step))
      invariant errors == Failures(Outcomes(items[..idx], step))
    {
      var outcome := step(items[idx]);
      assert items[..idx + 1][..idx] == items[..idx];
      match outcome
      case Ok(result) =>
        results := results + [result];
      case Err(e) =>
        errors := errors + [e];
    }
    assert items[..|items|] == items;
  }

  /** Every item ends up either among the results or among the reported errors. */
  lemma {:induction false} EveryItemAccounted<R, E>(os: seq<Result<R, E>>)
    ensures |Collected(os)| + |Failures(os)| == |os|
  {
    if |os| > 0 {
      EveryItemAccounted(os[..|os| - 1]);
    }
  }

  /** Collecting a concatenation collects each part. */
  lemma {:induction false} CollectedConcat<R, E>(a: seq<Result<R, E>>, b: seq<Result<R, E>>)
    ensures Collected(a + b) == Collected(a) + Collected(b)
    decreases |b|
  {
    if |b| > 0 {
      var b' := b[..|b| - 1];
      assert (a + b)[..|a + b| - 1] == a + b';
      CollectedConcat(a, b');
    } else {
      assert a + b == a;
    }
  }

  /** The results around one item: those before it, its own, those after it. */
  lemma CollectedAround<R, E>(os: seq<Result<R, E>>, k: nat)
    requires k < |os|
    ensures Collected(os) == Collected(os[..k]) + Kept(os[k]) + Collected(os[k + 1..])
  {
    CollectedSplitAt(os, k + 1);
    CollectedPrefix(os, k);
  }

  lemma CollectedSplitAt<R, E>(os: seq<Result<R, E>>, n: nat)
    requires n <= |os|
    ensures Collected(os) == Collected(os[..n]) + Collected(os[n..])
  {
    assert os == os[..n] + os[n..];
    CollectedConcat(os[..n], os[n..]);
  }

  lemma CollectedPrefix<R, E>(os: seq<Result<R, E>>, k: nat)
    requires k < |os|
    ensures Collected(os[..k + 1]) == Collected(os[..k]) + Kept(os[k])
  {
    assert os[..k + 1][..k] == os[..k];
  }

  /** A failing item drops only its own result: the items before and after it are all kept. */
  lemma FailureContained<R, E>(os: seq<Result<R, E>>, k: nat)
    requires k < |os| && os[k].Err?
    ensures Collected(os) == Collected(os[..k]) + Collected(os[k + 1..])
  {
    CollectedAround(os, k);
  }

  /** A successful item's result sits right after the results of the items before it. */
  lemma SuccessKept<R, E>(os: seq<Result<R, E>>, k: nat)
    requires k < |os| && os[k].Ok?
    ensures Collected(os) == Collected(os[..k]) + [os[k].value] + Collected(os[k + 1..])
  {
    CollectedAround(os, k);
  }

  /** Every reported error comes from a failed outcome. */
  lemma {:induction false} FailuresFrom<R, E>(os: seq<Result<R, E>>)
    ensures forall e :: e in Failures(os) ==> exists i :: 0 <= i < |os| && os[i] == Err(e)
  {
    if |os| > 0 {
      var init := os[..|os| - 1];
      FailuresFrom(init);
      forall e | e in Failures(os)
        ensures exists i :: 0 <= i < |os| && os[i] == Err(e)
      {
        if e in Failures(init) {
          var i :| 0 <= i < |init| && init[i] == Err(e);
          assert os[i] == Err(e);
        } else {
          assert os[|os| - 1] == Err(e);
        }
      }
    }
  }

  /** A failure, reported against the name of the file it happened to. */
  datatype ReportedError = ReportedError(name: string, failure: PipelineFailure)

  /** One iteration of `main`'s loop: the file under the environment of its own iteration. */
  function ProcessOne(job: (FileData, Environment)): Result<PipelineResult, ReportedError>
  {
    match ProcessWithReaperPipeline(job.0, job.1)
    case Ok(result) => Ok(result)
    case Err(failure) => Err(ReportedError(job.0.name, failure))
  }

  /** Each file paired with what the outside world did during its own iteration. */
  function Jobs(files: seq<FileData>, envs: seq<Environment>): (jobs: seq<(FileData, Environment)>)
    requires |envs| == |files|
    ensures |jobs| == |files|
    ensures forall i :: 0 <= i < |files| ==> jobs[i] == (files[i], envs[i])
  {
    seq(|files|, i requires 0 <= i < |files| => (files[i], envs[i]))
  }

  /**
   * The processing loop of `main` over the collected files. Each iteration
   * reads the clock and runs the tools anew, so each file has its own
   * environment, `envs[i]` for `files[i]`.
   */
  method ProcessFiles(files: seq<FileData>, envs: seq<Environment>)
    returns (results: seq<PipelineResult>, errors: seq<ReportedError>)
    requires |envs| == |files|
    ensures |results| + |errors| == |files|
    ensures results == Collected(Outcomes(Jobs(files, envs), ProcessOne))
    ensures errors == Failures(Outcomes(Jobs(files, envs), ProcessOne))
    ensures forall e :: e in errors ==>
      exists i :: 0 <= i < |files| && e.name == files[i].name && ProcessWithReaperPipeline(files[i], envs[i]) == Err(e.failure)
  {
    var jobs := Jobs(files, envs);
    results, errors := RunBatch(jobs, ProcessOne);
    EveryItemAccounted(Outcomes(jobs, ProcessOne));
    ErrorsNameTheirFiles(files, envs);
  }

  /** Each reported error names a submitted file and carries that file's own failure. */
  lemma ErrorsNameTheirFiles(files: seq<FileData>, envs: seq<Environment>)
    requires |envs| == |files|
    ensures forall e :: e in Failures(Outcomes(Jobs(files, envs), ProcessOne)) ==>
      exists i :: 0 <= i < |files| && e.name == files[i].name && ProcessWithReaperPipeline(files[i], envs[i]) == Err(e.failure)
  {
    var os := Outcomes(Jobs(files, envs), ProcessOne);
    FailuresFrom(os);
    forall e: ReportedError | e in Failures(os)
      ensures exists i :: 0 <= i < |files| && e.name == files[i].name && ProcessWithReaperPipeline(files[i], envs[i]) == Err(e.failure)
    {
      var i :| 0 <= i < |os| && os[i] == Err(e);
      ReportedAt(files[i], envs[i], e);
    }
  }

  /** A failed iteration reports the file's name and the pipeline's own failure. */
  lemma ReportedAt(file: FileData, env: Environment, e: ReportedError)
    requires ProcessOne((file, env)) == Err(e)
    ensures e.name == file.name && ProcessWithReaperPipeline(file, env) == Err(e.failure)
  {
  }
}
