/**
 * The REAPER session handling of `app.py`: a session is created from the
 * template text with its render target rewritten, an audio item is spliced
 * into the session's first track, and after rendering the produced WAV file
 * is looked up next to the session file.
 *
 * File contents are strings and lists of lines; whether a file exists, the
 * directory listing and whether REAPER finished in time are parameters.
 */
module ReaperSession {
  import opened Base
  import opened Text
  import opened Paths

  // ---------------------------------------------------------------------
  // create_reaper_session_from_template
  // ---------------------------------------------------------------------

  /** The render-target line the template ships with. */
  const TemplateRenderLine: string := "RENDER_FILE \"F:\\CURSOS\\2025\\Q2\\2505_php\\Prueba Reaper\""

  /** The render-target line pointing at `renderPath`. */
  function RenderLine(renderPath: string): string
  {
    "RENDER_FILE \"" + renderPath + "\""
  }

  /** A session file as written to disk: its path and its text. */
  datatype Session = Session(path: string, content: string)

  /** The directory a session named `sessionName` gets under `outputDir`. */
  function SessionDir(outputDir: string, sessionName: string): string
  {
    Join(outputDir, sessionName)
  }

  /**
   * Creates the session `sessionName` under `outputDir` from the template
   * text: every occurrence of the template's render line is replaced by one
   * pointing at `<session dir>/<session name>`, and the text is stored in
   * `<session dir>/<session name>.rpp`.
   */
  function CreateReaperSessionFromTemplate(template: string, sessionName: string, outputDir: string): (s: Session)
    ensures s.content == JoinWith(Split(template, TemplateRenderLine),
                                  RenderLine(Join(SessionDir(outputDir, sessionName), sessionName)))
    ensures !Contains(template, TemplateRenderLine) ==> s.content == template
    ensures EndsWith(s.path, sessionName + ".rpp")
  {
    var sessionDir := SessionDir(outputDir, sessionName);
    var rendered := RenderLine(Join(sessionDir, sessionName));
    ReplaceIsSplitJoin(template, TemplateRenderLine, rendered);
    Session(Join(sessionDir, sessionName + ".rpp"), Replace(template, TemplateRenderLine, rendered))
  }

  /**
   * When the template has the old render line, the session keeps the text
   * before its first occurrence and has the new render line where it started.
   */
  lemma RenderLineReplaced(template: string, sessionName: string, outputDir: string)
    requires Contains(template, TemplateRenderLine)
    ensures IndexOf(template, TemplateRenderLine).Some?
    ensures var i := IndexOf(template, TemplateRenderLine).value;
      var content := CreateReaperSessionFromTemplate(template, sessionName, outputDir).content;
      && content[..i] == template[..i]
      && OccursAt(content, RenderLine(Join(SessionDir(outputDir, sessionName), sessionName)), i)
  {
    IndexOfFirst(template, TemplateRenderLine);
    SplitCount(template, TemplateRenderLine);
    var i := IndexOf(template, TemplateRenderLine).value;
    var line := RenderLine(Join(SessionDir(outputDir, sessionName), sessionName));
    var pieces := Split(template, TemplateRenderLine);
    assert pieces[0] == template[..i];
    var content := pieces[0] + line + JoinWith(pieces[1..], line);
    assert content[..i] == template[..i];
    assert content[i..i + |line|] == line;
  }

  /** A name usable as a session name: one path component that is not all dots. */
  predicate PlainName(name: string)
  {
    Sep !in name && exists k :: 0 <= k < |name| && name[k] != '.'
  }

  lemma PlainNameIsNamed(name: string)
    requires PlainName(name)
    ensures NamedLastComponent(name) && name != ""
  {
    var k :| 0 <= k < |name| && name[k] != '.';
    assert name[k] != Sep;
  }

  /** `join(dir, name)` with a plain name is a normal directory. */
  lemma JoinNormal(dir: string, name: string)
    requires name != "" && Sep !in name
    ensures NormalDir(Join(dir, name))
  {
    var p := Join(dir, name);
    assert p[|p| - 1] == name[|name| - 1];
  }

  /**
   * The session file sits in the session directory, and the directory and
   * name `render_reaper_session` recovers from its path are the ones it was
   * created with.
   */
  lemma SessionLayout(template: string, sessionName: string, outputDir: string)
    requires PlainName(sessionName)
    ensures var path := CreateReaperSessionFromTemplate(template, sessionName, outputDir).path;
      && Dirname(path) == SessionDir(outputDir, sessionName)
      && Basename(path) == sessionName + ".rpp"
      && Root(Basename(path)) == sessionName
  {
    var path := CreateReaperSessionFromTemplate(template, sessionName, outputDir).path;
    assert path == Join(SessionDir(outputDir, sessionName), sessionName + ".rpp");
    SessionFileLayout(outputDir, sessionName);
  }

  /** The same facts, about the path `<output_dir>/<name>/<name>.rpp` itself. */
  lemma SessionFileLayout(outputDir: string, sessionName: string)
    requires PlainName(sessionName)
    ensures var path := Join(SessionDir(outputDir, sessionName), sessionName + ".rpp");
      && Dirname(path) == SessionDir(outputDir, sessionName)
      && Basename(path) == sessionName + ".rpp"
      && Root(Basename(path)) == sessionName
  {
    var dir := SessionDir(outputDir, sessionName);
    JoinNormal(outputDir, sessionName);
    RppFileName(sessionName);
    JoinSplitsBack(dir, sessionName + ".rpp");
  }

  /** `<name>.rpp` is a plain file name whose root is `name`. */
  lemma RppFileName(sessionName: string)
    requires PlainName(sessionName)
    ensures sessionName + ".rpp" != "" && Sep !in sessionName + ".rpp"
    ensures Root(sessionName + ".rpp") == sessionName
  {
    PlainNameIsNamed(sessionName);
    SplitExtAppend(sessionName, ".rpp");
  }

  // ---------------------------------------------------------------------
  // add_audio_to_reaper_session
  // ---------------------------------------------------------------------

  /** A line that starts a track block. */
  predicate OpensTrack(line: string)
  {
    Contains(line, "<TRACK")
  }

  /** A line that closes a block: it has a `>` and no `<`. */
  predicate ClosesBlock(line: string)
  {
    '>' in line && '<' !in line
  }

  /** Some line before index `n` starts a track block. */
  predicate TrackBefore(lines: seq<string>, n: nat)
  {
    exists t :: 0 <= t < n && t < |lines| && OpensTrack(lines[t])
  }

  /** Line `c` closes a block at or after the first track line, so the item goes right after it. */
  predicate IsAnchor(lines: seq<string>, c: nat)
  {
    c < |lines| && TrackBefore(lines, c + 1) && ClosesBlock(lines[c])
  }

  /** A track-opening line never closes a block: it contains a `<`. */
  lemma TrackLineNeverAnchors(line: string)
    requires OpensTrack(line)
    ensures !ClosesBlock(line)
  {
    var i: nat :| i <= |line| && OccursAt(line, "<TRACK", i);
    assert line[i] == line[i..i + 6][0];
  }

  /** One past the first anchor at index `k` or later, or 0 when there is none. */
  function FirstAnchorFrom(lines: seq<string>, k: nat): (idx: nat)
    ensures idx == 0 || (k < idx <= |lines| && IsAnchor(lines, idx - 1))
    ensures idx > 0 ==> forall j :: k <= j < idx - 1 ==> !IsAnchor(lines, j)
    ensures idx == 0 ==> forall j :: k <= j < |lines| ==> !IsAnchor(lines, j)
    decreases |lines| - k
  {
    if k >= |lines| then 0
    else if IsAnchor(lines, k) then k + 1
    else FirstAnchorFrom(lines, k + 1)
  }

  /**
   * Where the audio item goes: right after the first line, at or after the
   * first `<TRACK` line, that closes a block; at the very start when there is
   * no such line.
   */
  function InsertionIndex(lines: seq<string>): (idx: nat)
    ensures idx <= |lines|
    ensures idx > 0 ==> IsAnchor(lines, idx - 1) && forall j :: 0 <= j < idx - 1 ==> !IsAnchor(lines, j)
    ensures idx == 0 <==> forall j :: 0 <= j < |lines| ==> !IsAnchor(lines, j)
  {
    FirstAnchorFrom(lines, 0)
  }

  /** Without any `<TRACK` line the item goes first. */
  lemma NoTrackInsertsFirst(lines: seq<string>)
    requires forall i :: 0 <= i < |lines| ==> !OpensTrack(lines[i])
    ensures InsertionIndex(lines) == 0
  {
    forall j | 0 <= j < |lines| ensures !IsAnchor(lines, j) {
      assert !TrackBefore(lines, j + 1);
    }
  }

  /** The anchor lies strictly after the first `<TRACK` line. */
  lemma AnchorAfterTrack(lines: seq<string>, t: nat)
    requires t < |lines| && OpensTrack(lines[t])
    requires forall i :: 0 <= i < t ==> !OpensTrack(lines[i])
    ensures InsertionIndex(lines) == 0 || InsertionIndex(lines) > t + 1
  {
    var idx := InsertionIndex(lines);
    if idx > 0 {
      var c := idx - 1;
      var u :| 0 <= u < c + 1 && u < |lines| && OpensTrack(lines[u]);
      assert u >= t;
      if c == t {
        TrackLineNeverAnchors(lines[t]);
      }
    }
  }

  /**
   * The scan of `add_audio_to_reaper_session`: remember once a `<TRACK` line
   * has been seen, and stop after the first block-closing line from then on.
   */
  method FindInsertIndex(lines: seq<string>) returns (insertIndex: nat)
    ensures insertIndex == InsertionIndex(lines)
  {
    var trackFound := false;
    insertIndex := 0;
    for i := 0 to |lines|
      invariant trackFound <==> TrackBefore(lines, i)
      invariant insertIndex == 0
      invariant forall j :: 0 <= j < i ==> !IsAnchor(lines, j)
    {
      if Contains(lines[i], "<TRACK") {
        trackFound := true;
      }
      if trackFound && '>' in lines[i] && '<' !in lines[i] {
        insertIndex := i + 1;
        assert IsAnchor(lines, i);
        break;
      }
      assert !IsAnchor(lines, i);
    }
  }

  const ItemHead: string :=
    "    <ITEM\n      POSITION 0\n      SNAPOFFS 0\n      LENGTH "
  const ItemMiddle: string :=
    "\n      LOOP 0\n      ALLTAKES 0\n      FADEIN 1 0 0 1 0 0 0\n      FADEOUT 1 0 0 1 0 0 0\n"
    + "      MUTE 0 0\n      SEL 0\n      IGUID {GENERATED_GUID}\n      IID 1\n      NAME \""
  const ItemSource: string :=
    "\"\n      VOLPAN 1 0 1 -1\n      SOFFS 0\n      PLAYRATE 1 1 0 -1 0 0.0025\n      CHANMODE 0\n"
    + "      GUID {GENERATED_GUID2}\n      <SOURCE WAVE\n        FILE \""
  const ItemTail: string := "\"\n      >\n    >\n"

  /**
   * The `<ITEM>` block for `audioFile`, whose duration printed by ffprobe is
   * `lengthText`: it is named after the file's base name and its source is
   * the file itself.
   */
  function AudioItem(audioFile: string, lengthText: string): string
  {
    ItemHead + lengthText + ItemMiddle + Basename(audioFile) + ItemSource + audioFile + ItemTail
  }

  /**
   * `add_audio_to_reaper_session` on the session's lines: the item is
   * inserted, as one more element, at the insertion index.
   */
  method AddAudioToReaperSession(lines: seq<string>, audioFile: string, lengthText: string)
    returns (updated: seq<string>)
    ensures |updated| == |lines| + 1
    ensures var idx := InsertionIndex(lines);
      && updated[..idx] == lines[..idx]
      && updated[idx] == AudioItem(audioFile, lengthText)
      && updated[idx + 1..] == lines[idx..]
    ensures multiset(updated) == multiset(lines) + multiset{AudioItem(audioFile, lengthText)}
  {
    var insertIndex := FindInsertIndex(lines);
    updated := InsertAt(lines, insertIndex, AudioItem(audioFile, lengthText));
  }

  /** Python's `lines.insert(idx, item)` for an index within the list. */
  method InsertAt(lines: seq<string>, idx: nat, item: string) returns (updated: seq<string>)
    requires idx <= |lines|
    ensures |updated| == |lines| + 1
    ensures updated[..idx] == lines[..idx] && updated[idx] == item && updated[idx + 1..] == lines[idx..]
    ensures multiset(updated) == multiset(lines) + multiset{item}
  {
    updated := lines[..idx] + [item] + lines[idx..];
    assert updated[idx + 1..] == lines[idx..];
    assert lines == lines[..idx] + lines[idx..];
  }

  /** Removing the inserted item gives the original lines back, in their order. */
  lemma InsertionKeepsOrder(lines: seq<string>, updated: seq<string>, item: string)
    requires |updated| == |lines| + 1
    requires var idx := InsertionIndex(lines);
      updated[..idx] == lines[..idx] && updated[idx] == item && updated[idx + 1..] == lines[idx..]
    ensures var idx := InsertionIndex(lines); updated[..idx] + updated[idx + 1..] == lines
  {
    var idx := InsertionIndex(lines);
    assert lines == lines[..idx] + lines[idx..];
  }

  // ---------------------------------------------------------------------
  // render_reaper_session
  // ---------------------------------------------------------------------

  /** Why no rendered file could be returned. */
  datatype RenderError = RenderTimedOut | RenderedFileMissing(dir: string)

  /** What the session name is followed by in the names the render is looked for under. */
  const RenderSuffixes: seq<string> := [".wav", "-master.wav", " master.wav"]

  lemma RenderSuffixesPlain()
    ensures forall i :: 0 <= i < |RenderSuffixes| ==> Sep !in RenderSuffixes[i] && RenderSuffixes[i] != ""
  {
    assert Sep !in RenderSuffixes[0];
    assert Sep !in RenderSuffixes[1];
    assert Sep !in RenderSuffixes[2];
  }

  /** The three paths the render is looked for under, in order. */
  function RenderCandidates(sessionDir: string, sessionName: string): seq<string>
  {
    seq(|RenderSuffixes|, i requires 0 <= i < |RenderSuffixes| => Join(sessionDir, sessionName + RenderSuffixes[i]))
  }

  /** The first path of `paths` that exists. */
  function FirstExisting(paths: seq<string>, present: string -> bool): (r: Option<string>)
    ensures r.Some? ==> present(r.value)
    ensures r.Some? ==> exists i :: 0 <= i < |paths| && paths[i] == r.value && forall j :: 0 <= j < i ==> !present(paths[j])
    ensures r.None? <==> forall i :: 0 <= i < |paths| ==> !present(paths[i])
  {
    if |paths| == 0 then None
    else if present(paths[0]) then Some(paths[0])
    else
      var r := FirstExisting(paths[1..], present);
      assert forall i :: 1 <= i < |paths| ==> paths[i] == paths[1..][i - 1];
      r
  }

  /** A directory entry that looks like the render of `sessionName`. */
  predicate LooksRendered(file: string, sessionName: string)
  {
    EndsWith(file, ".wav") && Contains(file, sessionName)
  }

  /** The first entry of `listing` that looks like the render. */
  function FirstListed(listing: seq<string>, sessionName: string): (r: Option<string>)
    ensures r.Some? ==> LooksRendered(r.value, sessionName)
    ensures r.Some? ==> exists i :: (0 <= i < |listing| && listing[i] == r.value
      && forall j :: 0 <= j < i ==> !LooksRendered(listing[j], sessionName))
    ensures r.None? <==> forall i :: 0 <= i < |listing| ==> !LooksRendered(listing[i], sessionName)
  {
    if |listing| == 0 then None
    else if LooksRendered(listing[0], sessionName) then Some(listing[0])
    else
      var r := FirstListed(listing[1..], sessionName);
      assert forall i :: 1 <= i < |listing| ==> listing[i] == listing[1..][i - 1];
      r
  }

  /**
   * Which file `render_reaper_session` returns after REAPER ran:
   * `timedOut` is whether it exceeded the wait, `present` is
   * `os.path.exists` and `listing` is `os.listdir` of the session directory.
   */
  function RenderedFile(sessionPath: string, timedOut: bool, present: string -> bool, listing: seq<string>): Result<string, RenderError>
  {
    if timedOut then Err(RenderTimedOut)
    else
      var sessionDir := Dirname(sessionPath);
      var sessionName := Root(Basename(sessionPath));
      match FirstExisting(RenderCandidates(sessionDir, sessionName), present)
      case Some(path) => Ok(path)
      case None =>
        match FirstListed(listing, sessionName)
        case Some(file) => Ok(Join(sessionDir, file))
        case None => Err(RenderedFileMissing(sessionDir))
  }

  /** The lookup part of `render_reaper_session`: the candidates in order, then the listing. */
  method FindRenderedFile(sessionPath: string, timedOut: bool, present: string -> bool, listing: seq<string>)
    returns (r: Result<string, RenderError>)
    ensures r == RenderedFile(sessionPath, timedOut, present, listing)
  {
    if timedOut {
      return Err(RenderTimedOut);
    }
    var sessionDir := Dirname(sessionPath);
    var sessionName := Root(Basename(sessionPath));
    var possibleFiles := RenderCandidates(sessionDir, sessionName);
    for k := 0 to |possibleFiles|
      invariant FirstExisting(possibleFiles[k..], present) == FirstExisting(possibleFiles, present)
    {
      if present(possibleFiles[k]) {
        return Ok(possibleFiles[k]);
      }
      assert possibleFiles[k..][1..] == possibleFiles[k + 1..];
    }
    for k := 0 to |listing|
      invariant FirstListed(listing[k..], sessionName) == FirstListed(listing, sessionName)
    {
      var file := listing[k];
      if EndsWith(file, ".wav") && Contains(file, sessionName) {
        return Ok(Join(sessionDir, file));
      }
      assert listing[k..][1..] == listing[k + 1..];
    }
    return Err(RenderedFileMissing(sessionDir));
  }

  /**
   * A render that exists under the first candidate name is returned, even
   * when other candidates or listed files exist too.
   */
  lemma PlainWavPreferred(sessionPath: string, present: string -> bool, listing: seq<string>)
    requires var dir, name := Dirname(sessionPath), Root(Basename(sessionPath));
      present(Join(dir, name + ".wav"))
    ensures RenderedFile(sessionPath, false, present, listing)
      == Ok(Join(Dirname(sessionPath), Root(Basename(sessionPath)) + ".wav"))
  {
  }

  /**
   * Whatever the lookup returns lies in the session's directory, provided the
   * listing holds plain file names as `os.listdir` does.
   */
  lemma RenderedFileInSessionDir(sessionPath: string, timedOut: bool, present: string -> bool, listing: seq<string>)
    requires forall i :: 0 <= i < |listing| ==> Sep !in listing[i]
    ensures var r := RenderedFile(sessionPath, timedOut, present, listing);
      r.Ok? ==> Dirname(r.value) == Dirname(sessionPath)
  {
    var dir := Dirname(sessionPath);
    var name := Root(Basename(sessionPath));
    NameHasNoSep(sessionPath);
    if FirstExisting(RenderCandidates(dir, name), present).Some? {
      CandidateInDir(dir, name, present);
    } else if FirstListed(listing, name).Some? {
      ListedInDir(dir, name, listing);
    }
  }

  lemma CandidateInDir(dir: string, name: string, present: string -> bool)
    requires NormalDir(dir) && Sep !in name
    requires FirstExisting(RenderCandidates(dir, name), present).Some?
    ensures Dirname(FirstExisting(RenderCandidates(dir, name), present).value) == dir
  {
    var candidates := RenderCandidates(dir, name);
    var i :| 0 <= i < |candidates| && candidates[i] == FirstExisting(candidates, present).value;
    CandidatesInDir(dir, name);
  }

  /** Each of the three candidates lies in the session directory. */
  lemma CandidatesInDir(dir: string, name: string)
    requires NormalDir(dir) && Sep !in name
    ensures forall i :: 0 <= i < |RenderCandidates(dir, name)| ==> Dirname(RenderCandidates(dir, name)[i]) == dir
  {
    RenderSuffixesPlain();
    forall i | 0 <= i < |RenderSuffixes|
      ensures Dirname(RenderCandidates(dir, name)[i]) == dir
    {
      PlainInDir(dir, name, RenderSuffixes[i]);
    }
  }

  lemma ListedInDir(dir: string, name: string, listing: seq<string>)
    requires NormalDir(dir) && forall i :: 0 <= i < |listing| ==> Sep !in listing[i]
    requires FirstListed(listing, name).Some?
    ensures Dirname(Join(dir, FirstListed(listing, name).value)) == dir
  {
    var file := FirstListed(listing, name).value;
    assert file + "" == file;
    PlainInDir(dir, file, "");
  }

  /** The render of a freshly created session is found in that session's directory. */
  lemma RenderFoundInSessionDir(template: string, sessionName: string, outputDir: string,
                                timedOut: bool, present: string -> bool, listing: seq<string>)
    requires PlainName(sessionName)
    requires forall i :: 0 <= i < |listing| ==> Sep !in listing[i]
    ensures var r := RenderedFile(CreateReaperSessionFromTemplate(template, sessionName, outputDir).path,
                                  timedOut, present, listing);
      r.Ok? ==> Dirname(r.value) == SessionDir(outputDir, sessionName)
  {
    var path := CreateReaperSessionFromTemplate(template, sessionName, outputDir).path;
    SessionLayout(template, sessionName, outputDir);
    RenderedFileInSessionDir(path, timedOut, present, listing);
  }

  /** A plain file name joined to a normal directory lies in that directory. */
  lemma PlainInDir(dir: string, name: string, suffix: string)
    requires NormalDir(dir) && Sep !in name && Sep !in suffix && name + suffix != ""
    ensures Dirname(Join(dir, name + suffix)) == dir
  {
    assert Sep !in name + suffix;
    JoinSplitsBack(dir, name + suffix);
  }

  /** The session name recovered from a path has no separator. */
  lemma NameHasNoSep(sessionPath: string)
    ensures Sep !in Root(Basename(sessionPath))
  {
    var b := Basename(sessionPath);
    assert Root(b) + Ext(b) == b;
    assert forall i :: 0 <= i < |Root(b)| ==> Root(b)[i] == b[i];
  }
}
