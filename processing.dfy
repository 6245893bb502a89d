/**
 * The processing-job state machine of the C++ front end
 * (filevisualizer.cpp, `FileVisualizer`): a file is imported, its type
 * detected from its suffix, a handler process started for it, and the
 * job then moves through timer ticks, process output, errors, the
 * process finishing, and user cancellation. The process, the timer's
 * random step, the user's answers and the file system are inputs; the
 * widgets are left out, and what the window tells the rest of the
 * program is kept as the list of signals it emits.
 */
module Processing {
  import opened Basics
  import opened Decimal
  import opened QtText
  import Config

  // ---------------------------------------------------------------------
  // File suffixes
  // ---------------------------------------------------------------------

  /** The text after the last c, or all of s when it holds no c. */
  function AfterLast(s: string, c: char): (r: string)
    ensures c !in r && |r| <= |s|
  {
    if |s| == 0 then ""
    else if s[|s| - 1] == c then ""
    else AfterLast(s[..|s| - 1], c) + [s[|s| - 1]]
  }

  /** What AfterLast keeps is the end of s, and when s holds a c it is the text right after one. */
  lemma {:induction false} AfterLastShape(s: string, c: char)
    ensures var r := AfterLast(s, c);
      r == s[|s| - |r|..] && (c in s ==> |r| < |s| && s[|s| - |r| - 1] == c)
  {
    if |s| > 0 && s[|s| - 1] != c {
      var front := s[..|s| - 1];
      AfterLastShape(front, c);
      var r := AfterLast(front, c);
      assert s == front + [s[|s| - 1]];
      assert c in s ==> c in front;
      assert AfterLast(s, c) == front[|front| - |r|..] + [s[|s| - 1]];
    }
  }

  /** `QFileInfo::fileName()` on Unix paths: the text after the last '/', the only separator. */
  function FileName(path: string): string
  {
    AfterLast(path, '/')
  }

  /** `QFileInfo::suffix()`: the text after the last '.' of the file name, "" when it has none. */
  function Suffix(path: string): (r: string)
    ensures '.' !in r
  {
    var name := FileName(path);
    if '.' in name then AfterLast(name, '.') else ""
  }

  /** A suffix ends the file name and follows a '.' of it, and the file name ends the path. */
  lemma SuffixShape(path: string)
    ensures var name := FileName(path); name == path[|path| - |name|..]
    ensures var r := Suffix(path); var name := FileName(path);
      r != "" ==> |r| < |name| && name[|name| - |r| - 1] == '.' && r == name[|name| - |r|..]
  {
    var name := FileName(path);
    AfterLastShape(path, '/');
    if '.' in name {
      AfterLastShape(name, '.');
    }
  }

  // ---------------------------------------------------------------------
  // The "Progress: N%" output
  // ---------------------------------------------------------------------

  const Label: string := "Progress:"

  /** The length of the run of ASCII digits that starts s. */
  function DigitRun(s: string): (n: nat)
    ensures n <= |s| && AllDigits(s[..n]) && (n < |s| ==> !IsDigit(s[n]))
  {
    if |s| > 0 && IsDigit(s[0]) then
      var n := 1 + DigitRun(s[1..]);
      assert s[..n] == [s[0]] + s[1..][..n - 1];
      n
    else 0
  }

  /**
   * The digits that `Progress:\s*(\d+)%` captures when it matches at
   * position p. Both repetitions are greedy and what follows each cannot
   * be what it repeats, so a match at p is unique: the label, all the
   * white space after it, all the digits after that, then '%'.
   */
  function MatchAt(s: string, p: nat): Option<string>
    requires p <= |s|
  {
    if |s| - p >= |Label| && s[p..p + |Label|] == Label then
      var rest := TrimStart(s[p + |Label|..]);
      var n := DigitRun(rest);
      if 0 < n < |rest| && rest[n] == '%' then Some(rest[..n]) else None
    else None
  }

  /** `QRegExp::indexIn` from position p: the leftmost match, with its captured digits. */
  function FirstMatch(s: string, p: nat): (r: Option<(nat, string)>)
    requires p <= |s|
    ensures r.Some? ==> p <= r.value.0 <= |s| && MatchAt(s, r.value.0) == Some(r.value.1)
    ensures forall q :: p <= q <= |s| && (r.None? || q < r.value.0) ==> MatchAt(s, q).None?
    decreases |s| - p
  {
    match MatchAt(s, p)
    case Some(d) => Some((p, d))
    case None => if p == |s| then None else FirstMatch(s, p + 1)
  }

  /** `QString::toInt()` on a digit string: its value, or 0 when it does not fit in an int. */
  function ToInt(d: string): (v: int)
    requires AllDigits(d)
    ensures 0 <= v <= IntMax
  {
    if Value(d) <= IntMax then Value(d) else 0
  }

  /** The progress the trimmed output reports: the captured digits of its first match, as an int. */
  function ProgressIn(output: string): (r: Option<int>)
    ensures r.Some? ==> 0 <= r.value <= IntMax
  {
    var s := Trim(output);
    match FirstMatch(s, 0)
    case None => None
    case Some((_, d)) =>
      DigitsCaptured(s, FirstMatch(s, 0).value.0);
      Some(ToInt(d))
  }

  /** What MatchAt captures is a digit string. */
  lemma DigitsCaptured(s: string, p: nat)
    requires p <= |s|
    ensures MatchAt(s, p).Some? ==> AllDigits(MatchAt(s, p).value)
  {
  }

  /** Output without a '%' reports nothing. */
  lemma NoPercentNoProgress(output: string)
    requires '%' !in output
    ensures ProgressIn(output).None?
  {
    var s := Trim(output);
    TrimShape(output);
    assert forall i :: 0 <= i < |s| ==> s[i] == output[Lead(output) + i];
    if FirstMatch(s, 0).Some? {
      var p := FirstMatch(s, 0).value.0;
      TrimStartSuffix(s[p + |Label|..]);
    }
  }

  /** A line of the form the handler prints reports its number. */
  lemma ProgressLine(n: nat)
    requires n <= IntMax
    ensures ProgressIn(Label + " " + Show(n) + "%") == Some(n)
  {
    var d := Show(n);
    var s := Label + " " + d + "%";
    assert TrimStart(s) == s;
    assert TrimEnd(s) == s;
    assert Trim(s) == s;
    assert s[0..|Label|] == Label;
    var tail := s[|Label|..];
    assert tail == " " + (d + "%");
    assert tail[1..] == d + "%";
    assert TrimStart(d + "%") == d + "%";
    assert TrimStart(tail) == d + "%";
    DigitRunOf(d, '%');
    assert (d + "%")[..|d|] == d;
    ValueOfShow(n);
    assert MatchAt(s, 0) == Some(d);
  }

  /** The digit run of digits followed by a non-digit is the digits. */
  lemma {:induction false} DigitRunOf(d: string, c: char)
    requires AllDigits(d) && !IsDigit(c)
    ensures DigitRun(d + [c]) == |d|
  {
    if |d| > 0 {
      assert (d + [c])[1..] == d[1..] + [c];
      DigitRunOf(d[1..], c);
    }
  }

  // ---------------------------------------------------------------------
  // The job
  // ---------------------------------------------------------------------

  /** `QProcess::ProcessError`. */
  datatype ProcessError = FailedToStart | Crashed | Timedout | WriteError | ReadError | UnknownError

  /** `QProcess::ExitStatus`. */
  datatype ExitStatus = NormalExit | CrashExit

  /** The three signals of the window: `processingStarted`, `processingProgress` and `processingFinished`. */
  datatype Signal = Started(path: string, fileType: string) | Progress(percent: int) | Finished(success: bool, message: string)

  /**
   * The state the slots change: `m_isProcessing`, `m_currentProgress`,
   * the progress bar's value, whether the progress timer runs, and the
   * signals emitted so far.
   */
  datatype Job = Job(processing: bool, progress: int, bar: int, timer: bool, signals: seq<Signal>)

  /** No job yet: the state after the constructor. */
  function Idle(): Job
  {
    Job(false, 0, 0, false, [])
  }

  /** The progress is never negative and the bar stays within its range 0 to 100. */
  predicate JobValid(j: Job)
  {
    j.progress >= 0 && 0 <= j.bar <= 100
  }

  /** `QProgressBar::setValue`: a value outside 0 to 100 leaves the bar as it was. */
  function SetBar(bar: int, v: int): int
  {
    if 0 <= v <= 100 then v else bar
  }

  /** `updateProgress()` on one tick, r standing for `qrand()`: 1 to 3 more, at most 90, while processing below 90. */
  function JobTick(j: Job, r: nat): Job
  {
    if j.processing && j.progress < 90 then
      var p := Min(j.progress + 1 + r % 3, 90);
      j.(progress := p, bar := SetBar(j.bar, p), signals := j.signals + [Progress(p)])
    else j
  }

  /** `handleProcessOutput()`: a trimmed output that reports a progress sets it, anything else changes nothing here. */
  function JobOutput(j: Job, output: string): Job
  {
    if Trim(output) == "" then j
    else
      match ProgressIn(output)
      case None => j
      case Some(p) => j.(progress := p, bar := SetBar(j.bar, p), signals := j.signals + [Progress(p)])
  }

  /** The message `handleProcessError` gives each error. */
  function ErrorMessage(e: ProcessError): string
  {
    match e
    case FailedToStart => "无法启动程序, 检查路径和权限"
    case Crashed => "程序异常崩溃"
    case Timedout => "程序响应超时"
    case WriteError => "无法向程序写入数据"
    case ReadError => "无法从程序读取数据"
    case UnknownError => "未知错误"
  }

  /** `handleProcessError(e)`: the job fails, unless it is a crash after the timer was stopped. */
  function JobError(j: Job, e: ProcessError): Job
  {
    if e != Crashed || j.timer then
      j.(timer := false, processing := false, signals := j.signals + [Finished(false, ErrorMessage(e))])
    else j
  }

  /** Whether a finished process succeeded: a normal exit with code 0. */
  predicate Succeeded(code: int, status: ExitStatus)
  {
    status == NormalExit && code == 0
  }

  /** The message `handleProcessFinished` reports. */
  function FinishMessage(code: int, status: ExitStatus, displayName: string): string
  {
    if Succeeded(code, status) then displayName + "文件处理成功完成"
    else "处理未成功完成 (退出代码: " + IntText(code) + ")"
  }

  /** `handleProcessFinished(code, status)`: the job ends; on success the bar shows 100. */
  function JobFinished(j: Job, code: int, status: ExitStatus, displayName: string): Job
  {
    var success := Succeeded(code, status);
    j.(timer := false, processing := false, bar := if success then SetBar(j.bar, 100) else j.bar,
       signals := j.signals + [Finished(success, FinishMessage(code, status, displayName))])
  }

  /** `cancelProcessing()`, confirm standing for the user's answer: a confirmed cancel of a running job resets it. */
  function JobCancel(j: Job, confirm: bool): Job
  {
    if !j.processing || !confirm then j
    else j.(timer := false, bar := SetBar(j.bar, 0), processing := false, signals := j.signals + [Finished(false, "处理已取消")])
  }

  /**
   * `startFileProcessing(path, type)`: a running job is cancelled first;
   * without a handler path nothing starts; otherwise the job is reset and
   * marked processing, and it runs when the process started (the timer
   * on, `processingStarted` emitted) and is marked idle again when not.
   */
  function JobStart(j: Job, exe: string, confirm: bool, started: bool, path: string, fileType: string): (Job, bool)
  {
    var j1 := if j.processing then JobCancel(j, confirm) else j;
    if exe == "" then (j1, false)
    else
      var j2 := j1.(bar := SetBar(j1.bar, 0), processing := true, progress := 0);
      if !started then (j2.(processing := false), false)
      else (j2.(timer := true, signals := j2.signals + [Started(path, fileType)]), true)
  }

  // ---------------------------------------------------------------------
  // What the transitions promise
  // ---------------------------------------------------------------------

  /** Every transition keeps the job valid. */
  lemma TransitionsValid(j: Job, r: nat, output: string, e: ProcessError, code: int, status: ExitStatus, name: string,
                         confirm: bool, exe: string, started: bool, path: string, fileType: string)
    requires JobValid(j)
    ensures JobValid(JobTick(j, r)) && JobValid(JobOutput(j, output)) && JobValid(JobError(j, e))
    ensures JobValid(JobFinished(j, code, status, name)) && JobValid(JobCancel(j, confirm))
    ensures JobValid(JobStart(j, exe, confirm, started, path, fileType).0)
  {
  }

  /**
   * A tick moves the progress only while processing below 90, by 1 to 3
   * and never past 90, and reports the new value; otherwise it changes
   * nothing.
   */
  lemma TickSteps(j: Job, r: nat)
    ensures var k := JobTick(j, r);
      if j.processing && j.progress < 90 then
        j.progress < k.progress <= Min(j.progress + 3, 90) && k.signals == j.signals + [Progress(k.progress)]
        && k.processing == j.processing && k.timer == j.timer
      else k == j
  {
  }

  /** The job after a run of ticks. */
  function Ticks(j: Job, rs: seq<nat>): Job
  {
    if |rs| == 0 then j else JobTick(Ticks(j, rs[..|rs| - 1]), rs[|rs| - 1])
  }

  /** However many ticks come and whatever `qrand()` returns, the timer alone never takes the progress past 90. */
  lemma {:induction false} TicksStayAtMost90(j: Job, rs: seq<nat>)
    requires j.progress <= 90
    ensures j.progress <= Ticks(j, rs).progress <= 90
  {
    if |rs| > 0 {
      TicksStayAtMost90(j, rs[..|rs| - 1]);
    }
  }

  /** Output that reports a progress sets it, whatever it was; output that reports none changes nothing. */
  lemma OutputSteps(j: Job, output: string)
    ensures var k := JobOutput(j, output);
      match ProgressIn(output)
      case Some(p) => k.progress == p && k.signals == j.signals + [Progress(p)] && k.processing == j.processing
      case None => k == j
  {
    if Trim(output) == "" {
      TrimEmpty(output);
    }
  }

  /** A finished process always ends the job; it succeeds exactly on a normal exit with code 0, and only then is the bar at 100. */
  lemma FinishedEnds(j: Job, code: int, status: ExitStatus, name: string)
    requires JobValid(j)
    ensures var k := JobFinished(j, code, status, name);
      && !k.processing && !k.timer
      && k.signals[|k.signals| - 1].success == (status == NormalExit && code == 0)
      && (status == NormalExit && code == 0 ==> k.bar == 100)
      && (!(status == NormalExit && code == 0) ==> k.bar == j.bar)
  {
  }

  /**
   * A cancel does nothing unless a job runs and the user confirms; then
   * the job is idle, the timer stopped and the bar back at 0.
   */
  lemma CancelResets(j: Job, confirm: bool)
    ensures var k := JobCancel(j, confirm);
      if j.processing && confirm then !k.processing && !k.timer && k.bar == 0 && k.progress == j.progress
        && k.signals == j.signals + [Finished(false, "处理已取消")]
      else k == j
  {
  }

  /** An error ends the job in every case but a crash after the timer was stopped, which changes nothing. */
  lemma ErrorEnds(j: Job, e: ProcessError)
    ensures var k := JobError(j, e);
      if e == Crashed && !j.timer then k == j
      else !k.processing && !k.timer && k.signals == j.signals + [Finished(false, ErrorMessage(e))]
  {
  }

  /**
   * Starting succeeds exactly when there is a handler path and the
   * process started, and then the job runs from progress 0 with the
   * timer on; a missing handler leaves the job as the cancel left it,
   * and a process that did not start marks the job idle.
   */
  lemma StartOutcome(j: Job, exe: string, confirm: bool, started: bool, path: string, fileType: string)
    ensures var (k, ok) := JobStart(j, exe, confirm, started, path, fileType);
      var before := if j.processing then JobCancel(j, confirm) else j;
      && (ok <==> exe != "" && started)
      && (exe == "" ==> k == before)
      && (exe != "" ==> k.progress == 0 && k.bar == 0 && k.processing == ok)
      && (ok ==> k.timer && k.signals == before.signals + [Started(path, fileType)])
      && (exe != "" && !started ==> k.timer == before.timer && k.signals == before.signals)
  {
  }

  // ---------------------------------------------------------------------
  // The window
  // ---------------------------------------------------------------------

  class FileVisualizer {
    const config: Config.ConfigManager
    var processing: bool
    var progress: int
    var bar: int
    var timer: bool
    var signals: seq<Signal>
    var currentFilePath: string
    var currentFileType: string

    /** The job fields as one value. */
    function State(): Job
      reads this
    {
      Job(processing, progress, bar, timer, signals)
    }

    ghost predicate Valid()
      reads this
    {
      JobValid(State())
    }

    /** The window over an initialized registry: no job, no current file. */
    constructor (config: Config.ConfigManager)
      ensures this.config == config && State() == Idle() && Valid()
      ensures currentFilePath == "" && currentFileType == ""
    {
      this.config := config;
      processing, progress, bar, timer, signals := false, 0, 0, false, [];
      currentFilePath, currentFileType := "", "";
    }

    /** `detectFileType(path)`: the type of the lowered suffix. */
    function DetectFileType(path: string): string
      reads this, config
    {
      config.FileTypeForExtension(ToLower(Suffix(path)))
    }

    /** `updateProgress()`, r standing for `qrand()`. */
    method UpdateProgress(r: nat)
      requires Valid()
      modifies this`progress, this`bar, this`signals
      ensures State() == JobTick(old(State()), r)
      ensures Valid()
    {
      if processing && progress < 90 {
        progress := progress + 1 + r % 3;
        if progress > 90 {
          progress := 90;
        }
        bar := SetBar(bar, progress);
        signals := signals + [Progress(progress)];
      }
    }

    /** `handleProcessOutput()`, output standing for what `readAllStandardOutput()` returned, decoded. */
    method HandleProcessOutput(output: string)
      requires Valid()
      modifies this`progress, this`bar, this`signals
      ensures State() == JobOutput(old(State()), output)
      ensures Valid()
    {
      var text := Trim(output);
      if text != "" {
        var m := FirstMatch(text, 0);
        if m.Some? {
          var p := ProgressIn(output).value;
          progress := p;
          bar := SetBar(bar, p);
          signals := signals + [Progress(p)];
        }
      }
    }

    /** `handleProcessError(e)`. */
    method HandleProcessError(e: ProcessError)
      requires Valid()
      modifies this`processing, this`timer, this`signals
      ensures State() == JobError(old(State()), e)
      ensures Valid()
    {
      var message := ErrorMessage(e);
      if e != Crashed || timer {
        timer := false;
        processing := false;
        signals := signals + [Finished(false, message)];
      }
    }

    /** `handleProcessFinished(code, status)`; the display name is that of the current file's type. */
    method HandleProcessFinished(code: int, status: ExitStatus)
      requires Valid()
      modifies this`processing, this`timer, this`bar, this`signals
      ensures State() == JobFinished(old(State()), code, status, config.DisplayNameForType(currentFileType))
      ensures Valid()
    {
      timer := false;
      processing := false;
      var success := false;
      var message;
      if status == NormalExit && code == 0 {
        bar := SetBar(bar, 100);
        message := config.DisplayNameForType(currentFileType) + "文件处理成功完成";
        success := true;
      } else {
        message := "处理未成功完成 (退出代码: " + IntText(code) + ")";
      }
      signals := signals + [Finished(success, message)];
    }

    /** `cancelProcessing()`, confirm standing for the answer to the confirmation question. */
    method CancelProcessing(confirm: bool)
      requires Valid()
      modifies this`processing, this`timer, this`bar, this`signals
      ensures State() == JobCancel(old(State()), confirm)
      ensures Valid()
    {
      if !processing {
        return;
      }
      if confirm {
        timer := false;
        bar := SetBar(bar, 0);
        processing := false;
        signals := signals + [Finished(false, "处理已取消")];
      }
    }

    /** `startFileProcessing(path, type)`, started standing for what `waitForStarted` returned. */
    method StartFileProcessing(path: string, fileType: string, confirm: bool, started: bool) returns (ok: bool)
      requires Valid()
      modifies this`processing, this`progress, this`timer, this`bar, this`signals
      ensures (State(), ok) == JobStart(old(State()), config.ExecutablePathForType(fileType), confirm, started, path, fileType)
      ensures Valid()
    {
      if processing {
        CancelProcessing(confirm);
      }
      var exe := config.ExecutablePathForType(fileType);
      if exe == "" {
        return false;
      }
      bar := SetBar(bar, 0);
      processing := true;
      progress := 0;
      if !started {
        processing := false;
        return false;
      }
      timer := true;
      signals := signals + [Started(path, fileType)];
      ok := true;
    }

    /**
     * `importFile(path)`, accessible standing for the file existing and
     * being readable: an inaccessible file or one of no known type is
     * refused and nothing changes; otherwise it becomes the current file
     * and its processing starts.
     */
    method ImportFile(path: string, accessible: bool, confirm: bool, started: bool) returns (ok: bool)
      requires Valid()
      modifies this
      ensures var t := old(DetectFileType(path));
        if !accessible || t == "" then
          !ok && State() == old(State()) && currentFilePath == old(currentFilePath) && currentFileType == old(currentFileType)
        else
          currentFilePath == path && currentFileType == t
          && (State(), ok) == JobStart(old(State()), config.ExecutablePathForType(t), confirm, started, path, t)
      ensures Valid()
    {
      if !accessible {
        return false;
      }
      var fileType := DetectFileType(path);
      if fileType == "" {
        return false;
      }
      currentFilePath := path;
      currentFileType := fileType;
      ok := StartFileProcessing(path, fileType, confirm, started);
    }
  }

  /** Detection ignores the case of the suffix, since the lookup lowers it again. */
  lemma DetectIgnoresCase(v: FileVisualizer, path: string)
    ensures v.DetectFileType(path) == v.config.FileTypeForExtension(Suffix(path))
  {
    Config.LookupIgnoresCase(v.config, ToLower(Suffix(path)), Suffix(path));
    ToLowerIdempotent(Suffix(path));
  }

  /**
   * With the corrected loader a file whose name has no suffix is never of
   * a known type, so its import is refused.
   */
  lemma NoSuffixNoType(v: FileVisualizer, path: string, fileTypes: seq<string>, read: string -> Config.Group, executable: string -> bool)
    requires v.config.Contents() == Config.LoadAll(Config.Intended, Config.NoRegistry(), fileTypes, read, executable)
    requires Suffix(path) == ""
    ensures v.DetectFileType(path) == ""
  {
    Config.NoTypeForEmptyExtension(v.config, fileTypes, read, executable);
    assert ToLower("") == "";
  }

  /**
   * With the loader as written, a group whose `extensions` value ends in
   * a comma and white space ("stp, ") makes every file without a suffix
   * of its type.
   */
  lemma NoSuffixTypedAsWritten(v: FileVisualizer, path: string, t: string, read: string -> Config.Group, executable: string -> bool,
                               x: string, b: string)
    requires Config.Accepted(read(t), executable) && read(t).extensions == x + [','] + b
    requires Config.Clean(x) && b != [] && forall i :: 0 <= i < |b| ==> IsSpace(b[i])
    requires v.config.Contents() == Config.LoadAll(Config.AsWritten, Config.NoRegistry(), [t], read, executable)
    requires Suffix(path) == ""
    ensures v.DetectFileType(path) == t
  {
    Config.BlankExtensionTyped(v.config, t, read, executable, x, b);
    assert ToLower("") == "";
  }
}
