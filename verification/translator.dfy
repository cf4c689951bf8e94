/**
 * Translation of an Airbrake notice into a Sentry event, and the request that
 * carries it. The notice is taken as already parsed from its XML; the event
 * is kept as a datatype (its JSON serialisation, the MD5 event id, deflate
 * and base64 are not modelled). The two wall-clock readings the source takes
 * are parameters.
 */
module Translator {
  import opened Wrappers
  import opened JsString

  /** One `<line>` of the notice's backtrace: its `file`, `number` and `method` attributes. */
  datatype BacktraceLine = BacktraceLine(file: string, number: string, methodName: string)

  /** The notice's `<error>`: `<class>`, `<message>` and `<backtrace>`. */
  datatype NoticeError = NoticeError(errorClass: string, message: string, backtrace: seq<BacktraceLine>)

  /** The notice's `<server-environment>`: `<project-root>` and `<hostname>`. */
  datatype ServerEnvironment = ServerEnvironment(projectRoot: string, hostname: string)

  /** A parsed Airbrake notice. */
  datatype Notice = Notice(apiKey: string, error: NoticeError, environment: ServerEnvironment)

  /** The Sentry project configured for one Airbrake api-key. */
  datatype SentryProject = SentryProject(id: string, platform: string, key: string, secret: string)

  /** A Sentry stack frame. */
  datatype Frame = Frame(filename: string, lineno: string, functionName: string, inApp: bool, moduleName: string)

  /**
   * A Sentry event: the message, the exception interface (type and value),
   * the stacktrace interface (frames), culprit, server name, the empty
   * `extra` and `logger`, the timestamp, and project and platform.
   */
  datatype SentryEvent = SentryEvent(
    message: string,
    exceptionType: string,
    exceptionValue: string,
    frames: seq<Frame>,
    culprit: string,
    serverName: string,
    extra: map<string, string>,
    logger: string,
    timestamp: int,
    project: string,
    platform: string)

  /** The POST to Sentry: its path, its `X-Sentry-Auth` header and the event it carries. */
  datatype SentryRequest = SentryRequest(path: string, auth: string, event: SentryEvent)

  /**
   * What the translator does with a notice: skip it (its api-key has no
   * Sentry project), throw (a TypeError: the backtrace has no line to pop),
   * drop the built event (compressing it failed), or post it.
   */
  datatype Translation = Skip | Throw | Dropped | Post(request: SentryRequest)

  const ProjectRootToken := "[PROJECT_ROOT]"
  const NodeModule := "node"
  const ExceptionModule := "exception"
  const StorePath := "/api/store/"
  const SentryClient := "airbrake-proxy/0.1.0"

  /**
   * A frame's file name: the first "[PROJECT_ROOT]" replaced by the project
   * root (a string-pattern `replace`). A name without the token is kept.
   */
  function ResolveFile(file: string, root: string): (r: string)
    ensures !Occurs(file, ProjectRootToken) ==> r == file
  {
    ReplaceFirst(file, ProjectRootToken, root)
  }

  /** The first token, and only it, becomes the project root; a file without the token is kept. */
  lemma ResolveFileReplacesFirstToken(file: string, root: string, i: nat)
    requires MatchAt(file, ProjectRootToken, i)
    requires forall j: nat :: j < i ==> !MatchAt(file, ProjectRootToken, j)
    requires '$' !in root
    ensures ResolveFile(file, root) == file[..i] + root + file[i + |ProjectRootToken|..]
  {
    ReplaceFirstAt(file, ProjectRootToken, root, i);
  }

  /**
   * Any later token in a file name survives, whatever the project root: it
   * keeps its distance from the end of the name. With a `$`-free root it is
   * shifted by the difference in length.
   */
  lemma ResolveFileKeepsLaterTokens(file: string, root: string, i: nat, j: nat)
    requires MatchAt(file, ProjectRootToken, i)
    requires forall k: nat :: k < i ==> !MatchAt(file, ProjectRootToken, k)
    requires i + |ProjectRootToken| <= j && MatchAt(file, ProjectRootToken, j)
    ensures var r := ResolveFile(file, root);
      |file| - j <= |r| && MatchAt(r, ProjectRootToken, |r| - (|file| - j))
    ensures '$' !in root ==> MatchAt(ResolveFile(file, root), ProjectRootToken, j - |ProjectRootToken| + |root|)
  {
    LaterOccurrenceSurvives(file, ProjectRootToken, root, i, j);
    if '$' !in root {
      LaterOccurrenceShifted(file, ProjectRootToken, root, i, j);
    }
  }

  /**
   * A project root of "$&" is expanded by the runtime to the matched token,
   * so every file name is left as it was.
   */
  lemma AmpRootKeepsEveryFile(file: string)
    ensures ResolveFile(file, "$&") == file
  {
    match IndexOf(file, ProjectRootToken)
    case None =>
    case Some(i) =>
      var before := file[..i];
      var after := file[i + |ProjectRootToken|..];
      assert Substitution("$&", ProjectRootToken, before, after) == ProjectRootToken;
      assert file == before + ProjectRootToken + after;
  }

  function MakeFrame(line: BacktraceLine, root: string, moduleName: string): Frame {
    Frame(ResolveFile(line.file, root), line.number, line.methodName, true, moduleName)
  }

  /**
   * The frames of a backtrace: one per line, in order, each with the line's
   * number and method, `in_app` set, and its file resolved against the project
   * root; every frame is tagged "node" except the last, which is tagged
   * "exception".
   */
  ghost predicate FramesFollow(frames: seq<Frame>, lines: seq<BacktraceLine>, root: string) {
    && |frames| == |lines|
    && (forall i :: 0 <= i < |lines| ==>
          && frames[i].filename == ResolveFile(lines[i].file, root)
          && frames[i].lineno == lines[i].number
          && frames[i].functionName == lines[i].methodName
          && frames[i].inApp)
    && (forall i :: 0 <= i < |lines| - 1 ==> frames[i].moduleName == NodeModule)
    && (0 < |lines| ==> frames[|lines| - 1].moduleName == ExceptionModule)
  }

  /** The `forEach` over every line but the last. */
  function NodeFrames(lines: seq<BacktraceLine>, root: string): (frames: seq<Frame>)
    ensures |frames| == |lines|
    ensures forall i :: 0 <= i < |lines| ==> frames[i] == MakeFrame(lines[i], root, NodeModule)
    decreases |lines|
  {
    if |lines| == 0 then []
    else [MakeFrame(lines[0], root, NodeModule)] + NodeFrames(lines[1..], root)
  }

  /** The frames of a non-empty backtrace: the popped last line is pushed after the others. */
  function StackFrames(lines: seq<BacktraceLine>, root: string): (frames: seq<Frame>)
    requires 0 < |lines|
    ensures FramesFollow(frames, lines, root)
  {
    var init := NodeFrames(lines[..|lines| - 1], root);
    var frames := init + [MakeFrame(lines[|lines| - 1], root, ExceptionModule)];
    assert forall i :: 0 <= i < |lines| - 1 ==> frames[i] == MakeFrame(lines[i], root, NodeModule);
    frames
  }

  /** Exactly one frame sequence follows a backtrace. */
  lemma FramesFollowUnique(f1: seq<Frame>, f2: seq<Frame>, lines: seq<BacktraceLine>, root: string)
    requires FramesFollow(f1, lines, root) && FramesFollow(f2, lines, root)
    ensures f1 == f2
  {
    forall i | 0 <= i < |f1|
      ensures f1[i] == f2[i]
    {
      var a, b := f1[i], f2[i];
      assert a.filename == b.filename == ResolveFile(lines[i].file, root);
      assert a.lineno == b.lineno && a.functionName == b.functionName && a.inApp == b.inApp;
      if i < |lines| - 1 {
        assert a.moduleName == b.moduleName == NodeModule;
      } else {
        assert a.moduleName == b.moduleName == ExceptionModule;
      }
    }
  }

  /** The last frame is tagged differently from every frame before it. */
  lemma LastFrameStandsApart(lines: seq<BacktraceLine>, root: string)
    requires 0 < |lines|
    ensures var frames := StackFrames(lines, root);
      forall i :: 0 <= i < |frames| - 1 ==> frames[i].moduleName != frames[|frames| - 1].moduleName
  {
  }

  const AuthPrefix := "Sentry sentry_version=5, sentry_timestamp="

  /** The last field of the auth header: the project's secret. */
  function SecretField(project: SentryProject): string {
    ", sentry_secret=" + project.secret
  }

  /** The fields after the timestamp: client name, then the project's key and secret. */
  function AuthCredentials(project: SentryProject): string {
    ", sentry_client=" + SentryClient + ", sentry_key=" + project.key + SecretField(project)
  }

  /**
   * The `X-Sentry-Auth` header: protocol version 5, the clock reading with
   * "000" appended, the client name, and the project's key and secret.
   */
  function AuthHeader(now: nat, project: SentryProject): (h: string)
    ensures |AuthPrefix| + |AuthCredentials(project)| < |h|
    ensures h[..|AuthPrefix|] == AuthPrefix
    ensures h[|h| - |AuthCredentials(project)|..] == AuthCredentials(project)
    ensures var ts := h[|AuthPrefix|..|h| - |AuthCredentials(project)|];
      && (forall k :: 0 <= k < |ts| ==> '0' <= ts[k] <= '9')
      && DecimalValue(ts) == now * 1000
    ensures |SecretField(project)| <= |h|
    ensures h[|h| - |SecretField(project)|..] == SecretField(project)
  {
    var ts := Decimal(now) + "000";
    var h := AuthPrefix + ts + AuthCredentials(project);
    var tail := SecretField(project);
    var head := ", sentry_client=" + SentryClient + ", sentry_key=" + project.key;
    assert AuthCredentials(project) == head + tail;
    assert h[|h| - |AuthCredentials(project)|..] == head + tail;
    EndsWithTail(h, head, tail);
    assert h[|AuthPrefix|..|h| - |AuthCredentials(project)|] == ts;
    DecimalRoundTrip(now);
    DecimalValueAppendsZeros(Decimal(now));
    h
  }

  /** For a positive clock reading the timestamp field is the reading times 1000, in decimal. */
  lemma AuthHeaderTimestamp(now: nat, project: SentryProject)
    requires 0 < now
    ensures AuthHeader(now, project) == AuthPrefix + Decimal(now * 1000) + AuthCredentials(project)
    ensures DecimalValue(Decimal(now * 1000)) == now * 1000
  {
    DecimalTimesThousand(now);
    DecimalRoundTrip(now * 1000);
  }

  /** The event built from a notice with a non-empty backtrace, for its project. */
  function EventOf(notice: Notice, p: SentryProject, eventTime: int): (e: SentryEvent)
    requires 0 < |notice.error.backtrace|
    ensures e.message == e.exceptionValue == e.culprit == notice.error.message
    ensures e.exceptionType == notice.error.errorClass
    ensures FramesFollow(e.frames, notice.error.backtrace, notice.environment.projectRoot)
    ensures e.serverName == notice.environment.hostname
    ensures e.extra == map[] && e.logger == "" && e.timestamp == eventTime
    ensures e.project == p.id && e.platform == p.platform
  {
    var err := notice.error;
    SentryEvent(
      err.message,
      err.errorClass,
      err.message,
      StackFrames(err.backtrace, notice.environment.projectRoot),
      err.message,
      notice.environment.hostname,
      map[],
      "",
      eventTime,
      p.id,
      p.platform)
  }

  /**
   * The translator: skipped when the api-key has no Sentry project, thrown
   * when the backtrace is empty, otherwise an event built from the notice and
   * the project, posted with the project's credentials. `eventTime` and
   * `headerTime` are the two clock readings; `deflateFails` is the outcome of
   * compressing the event, after which nothing is posted.
   */
  function Translate(projects: map<string, SentryProject>, notice: Notice, eventTime: int, headerTime: nat, deflateFails: bool): (t: Translation)
    ensures t.Skip? <==> notice.apiKey !in projects
    ensures t.Throw? <==> notice.apiKey in projects && |notice.error.backtrace| == 0
    ensures t.Dropped? <==> notice.apiKey in projects && 0 < |notice.error.backtrace| && deflateFails
    ensures t.Post? ==>
      var e := t.request.event;
      var p := projects[notice.apiKey];
      && e.message == notice.error.message
      && e.exceptionValue == notice.error.message
      && e.culprit == notice.error.message
      && e.exceptionType == notice.error.errorClass
      && FramesFollow(e.frames, notice.error.backtrace, notice.environment.projectRoot)
      && e.serverName == notice.environment.hostname
      && e.extra == map[] && e.logger == ""
      && e.timestamp == eventTime
      && e.project == p.id && e.platform == p.platform
      && t.request.path == StorePath
      && t.request.auth == AuthHeader(headerTime, p)
  {
    if notice.apiKey !in projects then Skip
    else if |notice.error.backtrace| == 0 then Throw
    else
      var p := projects[notice.apiKey];
      var event := EventOf(notice, p, eventTime);
      if deflateFails then Dropped
      else Post(SentryRequest(StorePath, AuthHeader(headerTime, p), event))
  }

  /** The auth header names the key and secret of the project the api-key maps to. */
  lemma PostedCredentialsBelongToProject(projects: map<string, SentryProject>, notice: Notice, eventTime: int, headerTime: nat, deflateFails: bool)
    requires Translate(projects, notice, eventTime, headerTime, deflateFails).Post?
    ensures var auth := Translate(projects, notice, eventTime, headerTime, deflateFails).request.auth;
      var p := projects[notice.apiKey];
      var tail := SecretField(p);
      && |tail| <= |auth|
      && auth[|auth| - |tail|..] == tail
  {
    var t := Translate(projects, notice, eventTime, headerTime, deflateFails);
    assert t.request.auth == AuthHeader(headerTime, projects[notice.apiKey]);
  }
}
