/** The decision logic of the GET /api/transcript handler (index.js:117-260),
    as a function from what the handler observes to the response it sends.
    The URL parser, the temporary directory, the yt-dlp process and the file
    system are not run: what they yield is part of the Environment. */
module TranscriptHandler {
  import opened Wrappers
  import opened Text
  import opened Vtt
  import opened YoutubeHost

  /** req.query.url: absent, a string, or something else (an array when the
      parameter is repeated, an object for bracketed keys). */
  datatype QueryUrl = Absent | StringValue(value: string) | NonString

  /** What the exec callback receives: an error with the process's stderr
      and the error's message ("" where either is undefined), or success. */
  datatype ExecResult = ExecFailed(stderr: string, errMessage: string) | ExecSucceeded

  /** What fs.readdir of the temporary directory yields, and what
      fs.readFile yields for each name (None where it throws). */
  datatype CaptionDir = ReadDirFailed | Listing(files: seq<string>, readFile: string -> Option<string>)

  datatype Environment = Environment(
    hostname: string -> Option<string>,  // new URL(url).hostname, None where it throws
    tempDirCreated: bool,                // fs.mkdtemp succeeded and exec was called without throwing
    exec: ExecResult,
    captionDir: CaptionDir)

  datatype ErrorCode =
    | MissingUrl | InvalidUrl | WorkerSetupFailed
    | YoutubeRateLimit | NoCaptions | YtdlpFailed
    | NoVttFile | EmptyTranscript | FsError
  {
    /** The errorCode field of the JSON body. */
    function Name(): string {
      match this
      case MissingUrl => "MISSING_URL"
      case InvalidUrl => "INVALID_URL"
      case WorkerSetupFailed => "WORKER_SETUP_FAILED"
      case YoutubeRateLimit => "YOUTUBE_RATE_LIMIT"
      case NoCaptions => "NO_CAPTIONS"
      case YtdlpFailed => "YTDLP_FAILED"
      case NoVttFile => "NO_VTT_FILE"
      case EmptyTranscript => "EMPTY_TRANSCRIPT"
      case FsError => "FS_ERROR"
    }

    /** The HTTP status the handler pairs with each code. */
    function Status(): nat {
      match this
      case MissingUrl => 400
      case InvalidUrl => 400
      case WorkerSetupFailed => 500
      case YoutubeRateLimit => 429
      case NoCaptions => 404
      case YtdlpFailed => 500
      case NoVttFile => 404
      case EmptyTranscript => 502
      case FsError => 500
    }
  }

  datatype Response = Transcript(text: string, length: nat) | Error(code: ErrorCode)
  {
    function StatusCode(): nat {
      if Transcript? then 200 else code.Status()
    }

    /** errorCode in the JSON body: null on success. */
    function ErrorCodeField(): Option<string> {
      if Transcript? then None else Some(code.Name())
    }
  }

  /** (stderrText || err.message || '').toLowerCase(). */
  function FailureText(stderr: string, errMessage: string): string {
    ToLower(if stderr != "" then stderr else errMessage)
  }

  /** The four phrases that mean the video has no captions. */
  predicate MentionsNoSubtitles(msg: string) {
    Contains(msg, "unable to download video subtitles") ||
    Contains(msg, "no subtitles") ||
    Contains(msg, "no caption") ||
    Contains(msg, "no captions")
  }

  /** The error branch of the exec callback (index.js:175-209). */
  function ClassifyExecFailure(stderr: string, errMessage: string): (r: Response)
    ensures r.Error? && r.code in {YoutubeRateLimit, NoCaptions, YtdlpFailed}
  {
    var msg := FailureText(stderr, errMessage);
    if Contains(msg, "http error 429") then Error(YoutubeRateLimit)
    else if MentionsNoSubtitles(msg) then Error(NoCaptions)
    else Error(YtdlpFailed)
  }

  /** files.find((f) => f.endsWith('.vtt')): the first name ending in .vtt. */
  function FindVttFile(files: seq<string>): (found: Option<string>)
    ensures found.None? <==> forall i :: 0 <= i < |files| ==> !EndsWith(files[i], ".vtt")
    ensures found.Some? ==>
      exists i :: 0 <= i < |files| && files[i] == found.value &&
        EndsWith(files[i], ".vtt") && forall j :: 0 <= j < i ==> !EndsWith(files[j], ".vtt")
  {
    if files == [] then None
    else if EndsWith(files[0], ".vtt") then Some(files[0])
    else
      var found := FindVttFile(files[1..]);
      assert forall i :: 1 <= i < |files| ==> files[i] == files[1..][i - 1];
      found
  }

  /** The last two checks on the stripped text (index.js:228-249). */
  function TranscriptResponse(text: string): Response {
    if Trim(text) == "" then Error(EmptyTranscript) else Transcript(text, |text|)
  }

  /** The success branch of the exec callback (index.js:211-260). */
  function ReadCaptions(dir: CaptionDir): (r: Response)
    ensures r.Error? ==> r.code in {NoVttFile, EmptyTranscript, FsError}
  {
    match dir
    case ReadDirFailed => Error(FsError)
    case Listing(files, readFile) =>
      match FindVttFile(files)
      case None => Error(NoVttFile)
      case Some(name) =>
        match readFile(name)
        case None => Error(FsError)
        case Some(vtt) => TranscriptResponse(StripText(vtt))
  }

  /** The whole handler: the checks in the order the source makes them. */
  function Respond(url: QueryUrl, env: Environment): Response {
    if !url.StringValue? || Trim(url.value) == "" then Error(MissingUrl)
    else if !IsLikelyYoutubeUrl(env.hostname(Trim(url.value))) then Error(InvalidUrl)
    else if !env.tempDirCreated then Error(WorkerSetupFailed)
    else
      match env.exec
      case ExecFailed(stderr, errMessage) => ClassifyExecFailure(stderr, errMessage)
      case ExecSucceeded => ReadCaptions(env.captionDir)
  }

  /** The request gets as far as running yt-dlp. */
  predicate ReachesExec(url: QueryUrl, env: Environment) {
    url.StringValue? && Trim(url.value) != "" &&
    IsLikelyYoutubeUrl(env.hostname(Trim(url.value))) && env.tempDirCreated
  }

  // ---------------------------------------------------------------------
  // The URL checks

  lemma MissingUrlIffBlank(url: QueryUrl, env: Environment)
    ensures Respond(url, env) == Error(MissingUrl) <==> !url.StringValue? || Trim(url.value) == ""
  {
  }

  /** MISSING_URL is the answer exactly when the parameter is absent, not a
      string, or only white space, whatever else holds: it is checked first. */
  lemma MissingUrlFirst(url: QueryUrl, env: Environment)
    ensures Respond(url, env) == Error(MissingUrl) <==> !url.StringValue? || AllWhitespace(url.value)
    ensures Respond(url, env) == Error(MissingUrl) ==> Respond(url, env).StatusCode() == 400
  {
    MissingUrlIffBlank(url, env);
    if url.StringValue? {
      TrimEmptyIff(url.value);
    }
  }

  /** A non-blank URL gets INVALID_URL exactly when the host test rejects the
      hostname of the trimmed URL. */
  lemma InvalidUrlSecond(s: string, env: Environment)
    requires !AllWhitespace(s)
    ensures Respond(StringValue(s), env) == Error(InvalidUrl) <==> !IsLikelyYoutubeUrl(env.hostname(Trim(s)))
  {
    TrimEmptyIff(s);
  }

  /** The URL is trimmed before anything looks at it: white space around it
      changes nothing. */
  lemma UrlPaddingIgnored(before: string, s: string, after: string, env: Environment)
    requires AllWhitespace(before) && AllWhitespace(after)
    ensures Respond(StringValue(before + s + after), env) == Respond(StringValue(s), env)
  {
    TrimIgnoresPadding(before, s, after);
  }

  /** Once the URL is accepted and the directory exists, the exec result decides. */
  lemma ExecDecides(url: QueryUrl, env: Environment)
    requires ReachesExec(url, env)
    ensures env.exec.ExecFailed? ==> Respond(url, env) == ClassifyExecFailure(env.exec.stderr, env.exec.errMessage)
    ensures env.exec.ExecSucceeded? ==> Respond(url, env) == ReadCaptions(env.captionDir)
  {
  }

  // ---------------------------------------------------------------------
  // A failed yt-dlp run

  /** The rate limit is checked before the subtitle phrases, which are
      checked before the generic failure; each code arises exactly under
      its condition. */
  lemma ExecFailureOrder(stderr: string, errMessage: string)
    ensures var msg := FailureText(stderr, errMessage);
      (ClassifyExecFailure(stderr, errMessage) == Error(YoutubeRateLimit) <==> Contains(msg, "http error 429")) &&
      (ClassifyExecFailure(stderr, errMessage) == Error(NoCaptions) <==>
         !Contains(msg, "http error 429") && MentionsNoSubtitles(msg)) &&
      (ClassifyExecFailure(stderr, errMessage) == Error(YtdlpFailed) <==>
         !Contains(msg, "http error 429") && !MentionsNoSubtitles(msg))
  {
  }

  /** When stderr is not empty the error message is never looked at. */
  lemma StderrOverridesMessage(stderr: string, m1: string, m2: string)
    requires stderr != ""
    ensures ClassifyExecFailure(stderr, m1) == ClassifyExecFailure(stderr, m2)
  {
  }

  /** `HTTP Error 429` anywhere in stderr, in any letter case, gives the rate
      limit answer even when a no-subtitles phrase is also present. */
  lemma RateLimitWins(before: string, mid: string, after: string, errMessage: string)
    requires ToLower(mid) == "http error 429"
    ensures ClassifyExecFailure(before + mid + after, errMessage) == Error(YoutubeRateLimit)
    ensures ClassifyExecFailure(before + mid + after, errMessage).StatusCode() == 429
  {
    var stderr := before + mid + after;
    assert |mid| == 14;
    var msg := ToLower(stderr);
    ToLowerAppend(before + mid, after);
    ToLowerAppend(before, mid);
    assert msg[|before|..|before| + 14] == "http error 429";
    assert OccursAt(msg, "http error 429", |before|);
    ContainsIff(msg, "http error 429");
  }

  /** The phrase `no captions` is redundant: `no caption` already covers it. */
  lemma NoCaptionsPhraseRedundant(msg: string)
    ensures MentionsNoSubtitles(msg) <==>
      Contains(msg, "unable to download video subtitles") || Contains(msg, "no subtitles") || Contains(msg, "no caption")
  {
    if Contains(msg, "no captions") {
      assert "no captions" == "no caption" + "s";
      ContainsParts(msg, "no caption", "s");
    }
  }

  // ---------------------------------------------------------------------
  // A successful yt-dlp run

  /** NO_VTT_FILE is the answer exactly when no listed name ends in .vtt,
      before the file is read and whatever it holds. */
  lemma NoVttFileBeforeTranscript(files: seq<string>, readFile: string -> Option<string>)
    ensures ReadCaptions(Listing(files, readFile)) == Error(NoVttFile) <==>
      forall i :: 0 <= i < |files| ==> !EndsWith(files[i], ".vtt")
  {
    match FindVttFile(files)
    case None =>
    case Some(name) =>
      match readFile(name)
      case None =>
      case Some(vtt) =>
        assert TranscriptResponse(StripText(vtt)) != Error(NoVttFile);
  }

  /** What the handler answers for a caption file it has read. */
  lemma TranscriptOutcome(vtt: string)
    ensures TranscriptResponse(StripText(vtt)) == Error(EmptyTranscript) <==>
      forall j :: 0 <= j < |SplitLines(vtt)| ==> !IsCueText(Trim(SplitLines(vtt)[j]))
    ensures TranscriptResponse(StripText(vtt)) != Error(EmptyTranscript) ==>
      TranscriptResponse(StripText(vtt)) == Transcript(StripText(vtt), |StripText(vtt)|)
  {
    StripTextIsTrimmed(vtt);
    StripTextEmptyIff(vtt);
  }

  lemma CaptionFileReached(url: QueryUrl, env: Environment, name: string, vtt: string)
    requires ReachesExec(url, env) && env.exec.ExecSucceeded? && env.captionDir.Listing?
    requires FindVttFile(env.captionDir.files) == Some(name) && env.captionDir.readFile(name) == Some(vtt)
    ensures Respond(url, env) == TranscriptResponse(StripText(vtt))
  {
    ExecDecides(url, env);
    ReadCaptionsFound(env.captionDir, name, vtt);
  }

  lemma ReadCaptionsFound(dir: CaptionDir, name: string, vtt: string)
    requires dir.Listing? && FindVttFile(dir.files) == Some(name) && dir.readFile(name) == Some(vtt)
    ensures ReadCaptions(dir) == TranscriptResponse(StripText(vtt))
  {
  }

  /** Once the caption file is read: EMPTY_TRANSCRIPT exactly when no line of
      it is cue text, and otherwise status 200 with the stripped text, its
      length and a null errorCode. */
  lemma CaptionFileOutcome(url: QueryUrl, env: Environment, name: string, vtt: string)
    requires ReachesExec(url, env) && env.exec.ExecSucceeded? && env.captionDir.Listing?
    requires FindVttFile(env.captionDir.files) == Some(name) && env.captionDir.readFile(name) == Some(vtt)
    ensures Respond(url, env) == Error(EmptyTranscript) <==>
      forall j :: 0 <= j < |SplitLines(vtt)| ==> !IsCueText(Trim(SplitLines(vtt)[j]))
    ensures Respond(url, env) != Error(EmptyTranscript) ==>
      Respond(url, env) == Transcript(StripText(vtt), |StripText(vtt)|) &&
      Respond(url, env).StatusCode() == 200 && Respond(url, env).ErrorCodeField() == None
  {
    CaptionFileReached(url, env, name, vtt);
    TranscriptOutcome(vtt);
  }

  /** Only a caption file that was read can give a transcript. */
  lemma TranscriptComesFromCaptions(url: QueryUrl, env: Environment)
    ensures Respond(url, env).Transcript? ==>
      ReachesExec(url, env) && env.exec.ExecSucceeded? && Respond(url, env) == ReadCaptions(env.captionDir)
  {
    if ReachesExec(url, env) {
      ExecDecides(url, env);
    }
  }

  lemma CaptionsTranscriptShape(dir: CaptionDir)
    ensures ReadCaptions(dir).Transcript? ==>
      var r := ReadCaptions(dir);
      r.text != "" && Trim(r.text) == r.text && r.length == |r.text|
  {
    if ReadCaptions(dir).Transcript? {
      var name := FindVttFile(dir.files).value;
      var vtt := dir.readFile(name).value;
      ReadCaptionsFound(dir, name, vtt);
      StripTextIsTrimmed(vtt);
    }
  }

  /** Every 200 response carries a non-empty, already trimmed transcript and
      its length, and only a transcript has status 200. */
  lemma TranscriptShape(url: QueryUrl, env: Environment)
    ensures Respond(url, env).StatusCode() == 200 <==> Respond(url, env).Transcript?
    ensures Respond(url, env).Transcript? ==>
      var r := Respond(url, env);
      r.text != "" && Trim(r.text) == r.text && r.length == |r.text| && r.ErrorCodeField() == None
  {
    TranscriptComesFromCaptions(url, env);
    CaptionsTranscriptShape(env.captionDir);
  }
}
