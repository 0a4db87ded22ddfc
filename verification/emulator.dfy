/**
 The storage-emulator supervisor of `AzureStorageEmulatorManager`: parsing of
 the emulator's `status` output and of its error stream, the start/stop
 guards, the wait loop after a start or stop, and the version probe.

 Every process the manager spawns is an input here: a `ProcessRun` is what
 `Process.Start` gave back together with the text the process wrote on its
 standard output and error streams. The clock is an input as well.
 */
module EmulatorManager {
  import opened Strings

  /** The exceptions the manager lets escape. */
  datatype Error =
    | LaunchFailed              // `Process.Start` returned null or threw
    | AmbiguousStatus           // `SingleOrDefault` found two `IsRunning` lines
    | NotABoolean(text: string) // `Boolean.Parse` raised `FormatException`
    | EmulatorReported(message: string) // the captured error text, rethrown

  datatype Result<T> = Ok(value: T) | Err(error: Error)

  datatype Option<T> = None | Some(value: T)

  /** The three command-line verbs of the emulator executable. */
  datatype ProcessCommand = Start | Stop | Status

  /** One spawned emulator process: either it could not be started, or it
      ran and these are its complete standard output and error texts. */
  datatype ProcessRun = NotLaunched | Launched(stdout: string, stderr: string)

  /** How a call into the manager ends: it returns, it throws, or it never
      returns. */
  datatype Completion = Completed | Threw(error: Error) | Diverges

  /** The commands a call passed to `Process.Start`, in order, whether or
      not a process came of it, and how the call ended. */
  datatype Supervision = Supervision(attempted: seq<ProcessCommand>, completion: Completion)

  datatype VersionTriple = VersionTriple(major: int, minor: int, build: int)

  /** `Environment.NewLine` on Windows. */
  const NewLine: string := "\r\n"

  /** Key of the only status line the parser looks at. */
  const RunningKey: string := "IsRunning"

  /** Milliseconds after which the wait loop's timeout test fires. */
  const TimeoutMs: nat := 30000

  /** The argument string `command.ToString().ToLower()`. */
  function Argument(command: ProcessCommand): string {
    match command
    case Start => "start"
    case Stop => "stop"
    case Status => "status"
  }

  /** Different commands reach the executable as different arguments. */
  lemma ArgumentsDistinguishCommands(c: ProcessCommand, d: ProcessCommand)
    ensures Argument(c) == Argument(d) <==> c == d
  {
  }

  /** `Boolean.TrueString` / `Boolean.FalseString`. */
  function BoolText(b: bool): string {
    if b then "True" else "False"
  }

  /** `Boolean.Parse`: after stripping white space and NUL at both ends the
      text must equal "True" or "False" up to the case of ASCII letters. */
  function ParseBool(s: string): (r: Result<bool>)
    ensures r.Ok? ==> EqualsIgnoreAsciiCase(Trim(s, IsWhiteSpaceOrNull), BoolText(r.value))
    ensures r.Err? ==> r == Err(NotABoolean(s))
    ensures r.Err? ==> forall b: bool :: !EqualsIgnoreAsciiCase(Trim(s, IsWhiteSpaceOrNull), BoolText(b))
  {
    var v := Trim(s, IsWhiteSpaceOrNull);
    if EqualsIgnoreAsciiCase(v, "True") then Ok(true)
    else if EqualsIgnoreAsciiCase(v, "False") then Ok(false)
    else Err(NotABoolean(s))
  }

  /** "True" and "False" differ in length, so a literal never parses to both
      values: whatever case-insensitive match it makes decides the result. */
  lemma ParseBoolAcceptsEveryCasing(s: string, b: bool)
    requires EqualsIgnoreAsciiCase(Trim(s, IsWhiteSpaceOrNull), BoolText(b))
    ensures ParseBool(s) == Ok(b)
  {
  }

  /** `bool.ToString()` parses back to the same value. */
  lemma ParseBoolOfBoolText(b: bool)
    ensures ParseBool(BoolText(b)) == Ok(b)
  {
    var w := BoolText(b);
    ParseBoolOfTrimmedWord(w, b);
  }

  /** `text.Split(':').Select(part => part.Trim()).Last()`. */
  function AfterLastColon(text: string): (segment: string)
    ensures Untrimmable(segment, IsWhiteSpace)
    ensures ':' !in segment
  {
    var parts := Split(text, ":");
    var m := Trim(LastPiece(parts), IsWhiteSpace);
    assert ':' !in m by {
      assert ":" == [':'];
      SplitPiecesAvoidSeparator(text, ':');
      if ':' in m {
        TrimKeepsInputChars(LastPiece(parts), IsWhiteSpace, ':');
      }
    }
    m
  }

  /** The trimmed text after the last ':' ... */
  lemma AfterLastColonOfSplitText(p: string, t: string)
    requires ':' !in t
    ensures AfterLastColon(p + ":" + t) == Trim(t, IsWhiteSpace)
  {
    LastPieceAfterColon(p, t);
  }

  lemma LastPieceAfterColon(p: string, t: string)
    requires ':' !in t
    ensures LastPiece(Split(p + ":" + t, ":")) == t
  {
    LastPieceAfterFinalSeparator(p, ':', t);
    assert ":" == [':'];
  }

  /** ... and the whole trimmed text when there is no ':'. */
  lemma AfterLastColonWithoutColon(t: string)
    requires ':' !in t
    ensures AfterLastColon(t) == Trim(t, IsWhiteSpace)
  {
    var parts := Split(t, ":");
    SplitWithoutSeparator(t, ":");
    assert LastPiece(parts) == t;
  }

  /** `GetError`: the surfaced part of the error stream. */
  function GetError(stderr: string): (message: string)
    ensures Untrimmable(message, IsWhiteSpace)
    ensures ':' !in message
  {
    AfterLastColon(stderr)
  }

  /** An empty error stream surfaces as the empty string: no error. */
  lemma GetErrorOfEmptyStream()
    ensures GetError("") == ""
  {
  }

  predicate IsEntry(line: string) {
    |line| > 0
  }

  predicate IsStatusLine(line: string) {
    StartsWith(line, RunningKey)
  }

  /** The elements of `s` that `keep` selects, in order. */
  function Filter<T>(keep: T -> bool, s: seq<T>): (r: seq<T>)
    ensures |r| <= |s|
    ensures forall i :: 0 <= i < |r| ==> r[i] in s && keep(r[i])
    ensures forall i :: 0 <= i < |s| && keep(s[i]) ==> s[i] in r
    decreases |s|
  {
    if s == [] then []
    else if keep(s[0]) then [s[0]] + Filter(keep, s[1..])
    else Filter(keep, s[1..])
  }

  /** The `IsRunning` lines among the non-empty lines of the output. */
  function StatusLines(output: string): (lines: seq<string>)
    ensures forall i :: 0 <= i < |lines| ==> IsStatusLine(lines[i]) && lines[i] in Split(output, NewLine)
    ensures forall i :: 0 <= i < |Split(output, NewLine)| ==>
              IsStatusLine(Split(output, NewLine)[i]) ==> Split(output, NewLine)[i] in lines
  {
    var all := Split(output, NewLine);
    var entries := Filter(IsEntry, all);
    var lines := Filter(IsStatusLine, entries);
    assert forall i :: 0 <= i < |lines| ==> lines[i] in all by {
      forall i | 0 <= i < |lines|
        ensures lines[i] in all
      {
        var j :| 0 <= j < |entries| && entries[j] == lines[i];
      }
    }
    assert forall i :: 0 <= i < |all| && IsStatusLine(all[i]) ==> all[i] in lines by {
      forall i | 0 <= i < |all| && IsStatusLine(all[i])
        ensures all[i] in lines
      {
        var j :| 0 <= j < |entries| && entries[j] == all[i];
      }
    }
    lines
  }

  /** `GetStatus`: the running flag the `status` output reports. */
  function GetStatus(output: string): (r: Result<bool>)
    ensures |StatusLines(output)| == 0 ==> r == Ok(false)
    ensures |StatusLines(output)| >= 2 ==> r == Err(AmbiguousStatus)
    ensures r.Err? ==> r.error == AmbiguousStatus || r.error.NotABoolean?
  {
    var matches := StatusLines(output);
    if |matches| == 0 then Ok(false)
    else if |matches| == 1 then ParseBool(AfterLastColon(matches[0]))
    else Err(AmbiguousStatus)
  }

  lemma {:induction false} FilterAppend<T>(keep: T -> bool, a: seq<T>, b: seq<T>)
    ensures Filter(keep, a + b) == Filter(keep, a) + Filter(keep, b)
    decreases |a|
  {
    if a != [] {
      assert (a + b)[0] == a[0];
      assert (a + b)[1..] == a[1..] + b;
      FilterAppend(keep, a[1..], b);
      if keep(a[0]) {
        assert Filter(keep, a + b) == [a[0]] + Filter(keep, a[1..] + b);
        assert Filter(keep, a) == [a[0]] + Filter(keep, a[1..]);
        assert [a[0]] + (Filter(keep, a[1..]) + Filter(keep, b)) == ([a[0]] + Filter(keep, a[1..])) + Filter(keep, b);
      } else {
        assert Filter(keep, a + b) == Filter(keep, a[1..] + b);
      }
    } else {
      assert a + b == b;
    }
  }

  lemma {:induction false} FilterOfFilter<T>(outer: T -> bool, inner: T -> bool, s: seq<T>)
    requires forall x :: outer(x) ==> inner(x)
    ensures Filter(outer, Filter(inner, s)) == Filter(outer, s)
    decreases |s|
  {
    if s != [] {
      FilterOfFilter(outer, inner, s[1..]);
    }
  }

  lemma {:induction false} FilterNone<T>(keep: T -> bool, s: seq<T>)
    requires forall i :: 0 <= i < |s| ==> !keep(s[i])
    ensures Filter(keep, s) == []
    decreases |s|
  {
    if s != [] {
      FilterNone(keep, s[1..]);
    }
  }

  lemma FilterOne<T>(keep: T -> bool, s: seq<T>, k: int)
    requires 0 <= k < |s| && keep(s[k])
    requires forall i :: 0 <= i < |s| && i != k ==> !keep(s[i])
    ensures Filter(keep, s) == [s[k]]
  {
    var rest := s[k + 1..];
    assert s == s[..k] + ([s[k]] + rest);
    FilterAppend(keep, s[..k], [s[k]] + rest);
    FilterNone(keep, s[..k]);
    FilterKeepsHead(keep, s[k], rest);
    FilterNone(keep, rest);
  }

  lemma FilterKeepsHead<T>(keep: T -> bool, x: T, s: seq<T>)
    requires keep(x)
    ensures Filter(keep, [x] + s) == [x] + Filter(keep, s)
  {
    assert ([x] + s)[1..] == s;
  }

  lemma FilterTwo<T>(keep: T -> bool, s: seq<T>, i: int, j: int)
    requires 0 <= i < j < |s| && keep(s[i]) && keep(s[j])
    ensures |Filter(keep, s)| >= 2
  {
    assert s == s[..j] + s[j..];
    FilterAppend(keep, s[..j], s[j..]);
    assert s[..j][i] == s[i] && s[j..][0] == s[j];
    assert |Filter(keep, s[..j])| >= 1 by {
      assert s[i] in Filter(keep, s[..j]);
    }
    assert s[j] in Filter(keep, s[j..]);
  }

  /** Only `IsRunning` lines matter; empty entries never are one. */
  lemma StatusLinesOfLines(output: string)
    ensures StatusLines(output) == Filter(IsStatusLine, Split(output, NewLine))
  {
    FilterOfFilter(IsStatusLine, IsEntry, Split(output, NewLine));
  }

  /** No `IsRunning` line: the emulator is reported as not running, and this
      is never an error. */
  lemma StatusWithoutStatusLine(output: string)
    requires forall i :: 0 <= i < |Split(output, NewLine)| ==> !IsStatusLine(Split(output, NewLine)[i])
    ensures GetStatus(output) == Ok(false)
  {
    StatusLinesOfLines(output);
    FilterNone(IsStatusLine, Split(output, NewLine));
  }

  /** Exactly one `IsRunning` line: its trimmed text after the last ':' is
      parsed as a boolean. */
  lemma StatusOfSingleStatusLine(output: string, k: int)
    requires var lines := Split(output, NewLine);
      && 0 <= k < |lines| && IsStatusLine(lines[k])
      && forall i :: 0 <= i < |lines| && i != k ==> !IsStatusLine(lines[i])
    ensures GetStatus(output) == ParseBool(AfterLastColon(Split(output, NewLine)[k]))
  {
    StatusLinesOfLines(output);
    FilterOne(IsStatusLine, Split(output, NewLine), k);
  }

  /** Two `IsRunning` lines: `SingleOrDefault` throws. */
  lemma StatusOfTwoStatusLines(output: string, i: int, j: int)
    requires var lines := Split(output, NewLine);
      0 <= i < j < |lines| && IsStatusLine(lines[i]) && IsStatusLine(lines[j])
    ensures GetStatus(output) == Err(AmbiguousStatus)
  {
    StatusLinesOfLines(output);
    FilterTwo(IsStatusLine, Split(output, NewLine), i, j);
  }

  lemma NewLineDoesNotOverlap()
    ensures NoSelfOverlap(NewLine)
  {
    assert NewLine[1..][0] == '\n' && NewLine[..1][0] == '\r';
  }

  /** The `IsRunning` lines of two outputs joined by a line break are those
      of the first followed by those of the second. */
  lemma StatusLinesOfJoinedOutput(a: string, b: string)
    ensures StatusLines(a + NewLine + b) == StatusLines(a) + StatusLines(b)
  {
    NewLineDoesNotOverlap();
    SplitConcat(a, NewLine, b);
    StatusLinesOfLines(a + NewLine + b);
    StatusLinesOfLines(a);
    StatusLinesOfLines(b);
    FilterAppend(IsStatusLine, Split(a, NewLine), Split(b, NewLine));
  }

  /** Lines other than `IsRunning` lines, blank ones included, never change
      the parsed status, wherever they are added. */
  lemma StatusIgnoresOtherLines(a: string, b: string)
    requires StatusLines(b) == []
    ensures GetStatus(a + NewLine + b) == GetStatus(a)
    ensures GetStatus(b + NewLine + a) == GetStatus(a)
  {
    StatusLinesOfJoinedOutput(a, b);
    StatusLinesOfJoinedOutput(b, a);
    assert StatusLines(a) + [] == StatusLines(a);
    assert [] + StatusLines(a) == StatusLines(a);
  }

  /** The line the emulator prints, `IsRunning: True` or `IsRunning: False`,
      in any letter case, parses to the value it spells. */
  lemma StatusOfOneLineOutput(line: string)
    requires '\r' !in line && IsStatusLine(line)
    ensures GetStatus(line) == ParseBool(AfterLastColon(line))
  {
    SplitWithoutSeparator(line, NewLine);
    StatusOfSingleStatusLine(line, 0);
  }

  lemma RunningLineIsStatusLine(value: string)
    ensures IsStatusLine(RunningKey + ":" + value)
  {
    assert (RunningKey + ":" + value)[..|RunningKey|] == RunningKey;
  }

  lemma BoolWordHasNoNulAtEnds(t: string, b: bool)
    requires EqualsIgnoreAsciiCase(t, BoolText(b))
    ensures t[0] != '\0' && t[|t| - 1] != '\0'
  {
    assert AsciiLower(t[0]) == AsciiLower(BoolText(b)[0]);
    assert AsciiLower(t[|t| - 1]) == AsciiLower(BoolText(b)[|t| - 1]);
  }

  lemma TrimOfUntrimmable(t: string, drop: char -> bool)
    requires Untrimmable(t, drop)
    ensures Trim(t, drop) == t
  {
    TrimOfPadded([], t, [], drop);
    assert [] + t + [] == t;
  }

  /** A trimmed word spelling "True" or "False" has no NUL at its ends, so
      `Boolean.Parse` takes it as it is. */
  lemma ParseBoolOfTrimmedWord(t: string, b: bool)
    requires Untrimmable(t, IsWhiteSpace)
    requires EqualsIgnoreAsciiCase(t, BoolText(b))
    ensures ParseBool(t) == Ok(b)
  {
    BoolWordHasNoNulAtEnds(t, b);
    TrimOfUntrimmable(t, IsWhiteSpaceOrNull);
    ParseBoolAcceptsEveryCasing(t, b);
  }

  lemma NoCarriageReturnInRunningLine(value: string)
    requires '\r' !in value
    ensures '\r' !in RunningKey + ":" + value
  {
    var line := RunningKey + ":" + value;
    assert line == (RunningKey + ":") + value;
    assert '\r' !in RunningKey + ":";
  }

  /** The line the emulator prints, `IsRunning: True` or `IsRunning: False`,
      in any letter case and with any padding, parses to the value it
      spells. */
  lemma StatusOfRunningLine(value: string, b: bool)
    requires ':' !in value && '\r' !in value
    requires EqualsIgnoreAsciiCase(Trim(value, IsWhiteSpace), BoolText(b))
    ensures GetStatus(RunningKey + ":" + value) == Ok(b)
  {
    NoCarriageReturnInRunningLine(value);
    RunningLineIsStatusLine(value);
    StatusOfOneLineOutput(RunningKey + ":" + value);
    AfterLastColonOfSplitText(RunningKey, value);
    ParseBoolOfTrimmedWord(Trim(value, IsWhiteSpace), b);
  }

  lemma TrimOfSpacePadded(message: string)
    requires Untrimmable(message, IsWhiteSpace)
    ensures Trim(" " + message, IsWhiteSpace) == message
  {
    TrimOfPadded(" ", message, "", IsWhiteSpace);
    assert " " + message + "" == " " + message;
  }

  lemma ColonSpace(tag: string, message: string)
    ensures tag + ": " + message == tag + ":" + (" " + message)
  {
  }

  /** What the emulator prints, `IsRunning: True` or `IsRunning: False`,
      parses back to the value printed. */
  lemma StatusLineRoundTrip(b: bool)
    ensures GetStatus(RunningKey + ": " + BoolText(b)) == Ok(b)
  {
    var w := BoolText(b);
    assert ':' !in w && '\r' !in w;
    TrimOfSpacePadded(w);
    ColonSpace(RunningKey, w);
    StatusOfRunningLine(" " + w, b);
  }

  /** A value that is no boolean literal, such as `maybe`, makes the status
      read fail with a format error. */
  lemma StatusOfNonBooleanValue(value: string)
    requires ':' !in value && '\r' !in value
    requires forall b: bool :: !EqualsIgnoreAsciiCase(Trim(Trim(value, IsWhiteSpace), IsWhiteSpaceOrNull), BoolText(b))
    ensures GetStatus(RunningKey + ":" + value) == Err(NotABoolean(Trim(value, IsWhiteSpace)))
  {
    NoCarriageReturnInRunningLine(value);
    RunningLineIsStatusLine(value);
    StatusOfOneLineOutput(RunningKey + ":" + value);
    AfterLastColonOfSplitText(RunningKey, value);
  }

  /** A status line without ':' is its own last segment; since it begins
      with the nine letters of `IsRunning` it is never a boolean literal, so
      a bare `IsRunning` line is a format error. */
  lemma StatusOfLineWithoutColon(line: string)
    requires IsStatusLine(line) && ':' !in line && '\r' !in line
    ensures GetStatus(line) == Err(NotABoolean(Trim(line, IsWhiteSpace)))
  {
    StatusOfOneLineOutput(line);
    AfterLastColonWithoutColon(line);
    var t := Trim(line, IsWhiteSpace);
    StatusKeySurvivesTrim(line);
    LongWordIsNoBool(t);
  }

  lemma StatusKeySurvivesTrim(line: string)
    requires IsStatusLine(line)
    ensures |Trim(Trim(line, IsWhiteSpace), IsWhiteSpaceOrNull)| >= |RunningKey|
  {
    assert line[0] == 'I' && line[|RunningKey| - 1] == 'g';
    assert TrimStart(line, IsWhiteSpace) == line;
    var t := Trim(line, IsWhiteSpace);
    assert |t| >= |RunningKey|;
    assert t[0] == 'I' && t[|RunningKey| - 1] == 'g';
    assert TrimStart(t, IsWhiteSpaceOrNull) == t;
  }

  lemma LongWordIsNoBool(t: string)
    requires |Trim(t, IsWhiteSpaceOrNull)| >= |RunningKey|
    ensures ParseBool(t) == Err(NotABoolean(t))
  {
  }

  /** `Error: emulator busy` surfaces as `emulator busy`: the label before
      the last ':' and the padding around the message are dropped. */
  lemma GetErrorOfLabelledMessage(tag: string, message: string)
    requires ':' !in message && Untrimmable(message, IsWhiteSpace)
    ensures GetError(tag + ": " + message) == message
  {
    ColonSpace(tag, message);
    AfterLastColonOfSplitText(tag, " " + message);
    TrimOfSpacePadded(message);
  }

  /** `IsProcessRunning`: spawn `status` and parse its output. */
  function IsProcessRunning(run: ProcessRun): (r: Result<bool>)
    ensures run.NotLaunched? ==> r == Err(LaunchFailed)
    ensures run.Launched? ==> r == GetStatus(run.stdout)
  {
    match run
    case NotLaunched => Err(LaunchFailed)
    case Launched(stdout, _) => GetStatus(stdout)
  }

  /** One evaluation of the wait-loop condition: what the status read saw
      and how many milliseconds the stopwatch showed. */
  datatype Poll = Poll(stdout: string, elapsedMs: nat)

  datatype LoopState = LoopExited | LoopThrew(error: Error) | StillPolling

  /** The loop `while (!GetStatus(process) || elapsed > 30000)` run over a
      finite prefix of its polls; `StillPolling` means that prefix did not
      end it. */
  function WaitLoop(polls: seq<Poll>): (r: LoopState)
    ensures r.LoopThrew? ==> r.error == AmbiguousStatus || r.error.NotABoolean?
    ensures r == LoopExited ==> exists i :: 0 <= i < |polls| && GetStatus(polls[i].stdout) == Ok(true) && polls[i].elapsedMs <= TimeoutMs
    decreases |polls|
  {
    if polls == [] then StillPolling
    else match GetStatus(polls[0].stdout)
      case Err(e) => LoopThrew(e)
      case Ok(running) =>
        if !running || polls[0].elapsedMs > TimeoutMs then WaitLoop(polls[1..])
        else LoopExited
  }

  /** As written, the loop keeps polling once the timeout has passed: when
      every poll comes after 30 seconds, it never exits normally. */
  lemma {:induction false} WaitLoopIgnoresTimeout(polls: seq<Poll>)
    requires forall i :: 0 <= i < |polls| ==> polls[i].elapsedMs > TimeoutMs
    ensures WaitLoop(polls) != LoopExited
    decreases |polls|
  {
    if polls != [] {
      WaitLoopIgnoresTimeout(polls[1..]);
    }
  }

  /** The polls the loop in `ExecuteProcess` really makes: the first status
      read drains the spawned process's standard output, so every later
      read sees the empty string. */
  function DrainedPolls(stdout: string, times: seq<nat>): (polls: seq<Poll>)
    ensures |polls| == |times|
    ensures forall i :: 0 <= i < |times| ==> polls[i].elapsedMs == times[i]
    ensures forall i :: 0 < i < |times| ==> polls[i].stdout == ""
    ensures |times| > 0 ==> polls[0].stdout == stdout
    decreases |times|
  {
    if times == [] then [] else [Poll(stdout, times[0])] + DrainedPolls("", times[1..])
  }

  lemma EmptyOutputIsNotRunning()
    ensures GetStatus("") == Ok(false)
  {
    assert Split("", NewLine) == [""];
  }

  /** The first of the drained polls reads the command's own output and
      the rest are drained polls of the empty output. */
  lemma DrainedPollsCons(stdout: string, t: nat, later: seq<nat>)
    ensures DrainedPolls(stdout, [t] + later) == [Poll(stdout, t)] + DrainedPolls("", later)
  {
    assert ([t] + later)[1..] == later;
  }

  /** Polls that only ever read drained output never end the loop. */
  lemma {:induction false} DrainedPollsNeverExit(later: seq<nat>)
    ensures WaitLoop(DrainedPolls("", later)) == StillPolling
    decreases |later|
  {
    if later != [] {
      var first := Poll("", later[0]);
      var rest := DrainedPolls("", later[1..]);
      DrainedPollsCons("", later[0], later[1..]);
      assert [later[0]] + later[1..] == later;
      DrainedPollsNeverExit(later[1..]);
      EmptyOutputIsNotRunning();
      assert WaitLoop([first]) == StillPolling by {
        assert [first][1..] == [];
      }
      WaitLoopAfterFirstPoll(first, rest);
    }
  }

  /** `ExecuteProcess(command)`: spawn the command, capture its error text,
      wait, then rethrow the error text if there is any. `firstPollMs` is the
      stopwatch reading at the first status read. */
  function ExecuteProcess(run: ProcessRun, firstPollMs: nat): (r: Completion)
    ensures run.NotLaunched? ==> r == Threw(LaunchFailed)
    ensures r == Completed ==> run.Launched? && |GetError(run.stderr)| == 0
    ensures r.Threw? && r.error.EmulatorReported? ==> run.Launched? && r.error.message == GetError(run.stderr) && |r.error.message| > 0
  {
    match run
    case NotLaunched => Threw(LaunchFailed)
    case Launched(stdout, stderr) =>
      var error := GetError(stderr);
      match GetStatus(stdout)
      case Err(e) => Threw(e)
      case Ok(running) =>
        if !running || firstPollMs > TimeoutMs then Diverges
        else if |error| > 0 then Threw(EmulatorReported(error))
        else Completed
  }

  /** The wait loop in `ExecuteProcess` ends only on its first poll, when the
      command's own output reports the emulator running within the timeout;
      any later poll reads drained output. Over every finite run of polls it
      behaves as `ExecuteProcess` says: a status error is rethrown, an exit
      surfaces the error text, and otherwise it is still polling. */
  lemma ExecuteProcessFollowsWaitLoop(run: ProcessRun, firstPollMs: nat, later: seq<nat>)
    requires run.Launched?
    ensures var loop := WaitLoop(DrainedPolls(run.stdout, [firstPollMs] + later));
      && (ExecuteProcess(run, firstPollMs) == Diverges <==> loop == StillPolling)
      && (loop.LoopThrew? ==> ExecuteProcess(run, firstPollMs) == Threw(loop.error))
      && (loop == LoopExited ==>
            ExecuteProcess(run, firstPollMs)
            == (if |GetError(run.stderr)| == 0 then Completed else Threw(EmulatorReported(GetError(run.stderr)))))
  {
    var first := Poll(run.stdout, firstPollMs);
    var rest := DrainedPolls("", later);
    DrainedPollsCons(run.stdout, firstPollMs, later);
    DrainedPollsNeverExit(later);
    WaitLoopAfterFirstPoll(first, rest);
    assert WaitLoop([first] + rest) == WaitLoop([first]);
    ExecuteProcessFollowsFirstPoll(run, firstPollMs);
  }

  /** The outcome of `ExecuteProcess` is the outcome of the loop's first poll. */
  lemma ExecuteProcessFollowsFirstPoll(run: ProcessRun, firstPollMs: nat)
    requires run.Launched?
    ensures var loop := WaitLoop([Poll(run.stdout, firstPollMs)]);
      && (ExecuteProcess(run, firstPollMs) == Diverges <==> loop == StillPolling)
      && (loop.LoopThrew? ==> ExecuteProcess(run, firstPollMs) == Threw(loop.error))
      && (loop == LoopExited ==>
            ExecuteProcess(run, firstPollMs)
            == (if |GetError(run.stderr)| == 0 then Completed else Threw(EmulatorReported(GetError(run.stderr)))))
  {
    assert [Poll(run.stdout, firstPollMs)][1..] == [];
  }

  /** The first poll either ends the loop, and later polls are never made,
      or leaves the rest of the loop to the later polls. */
  lemma WaitLoopAfterFirstPoll(first: Poll, later: seq<Poll>)
    ensures WaitLoop([first]) != StillPolling ==> WaitLoop([first] + later) == WaitLoop([first])
    ensures WaitLoop([first]) == StillPolling ==> WaitLoop([first] + later) == WaitLoop(later)
  {
    assert ([first] + later)[1..] == later;
    assert [first][1..] == [];
  }

  /** A command whose own output does not report the emulator running by
      the time of the first poll keeps the loop polling forever: however many
      more polls are made, and however late, none ends it. */
  lemma WaitLoopNeverEndsUnlessFirstPollDoes(stdout: string, firstPollMs: nat, later: seq<nat>)
    requires GetStatus(stdout) == Ok(false) || (GetStatus(stdout) == Ok(true) && firstPollMs > TimeoutMs)
    ensures WaitLoop(DrainedPolls(stdout, [firstPollMs] + later)) == StillPolling
  {
    var first := Poll(stdout, firstPollMs);
    var rest := DrainedPolls("", later);
    DrainedPollsCons(stdout, firstPollMs, later);
    DrainedPollsNeverExit(later);
    assert WaitLoop([first]) == StillPolling by {
      assert [first][1..] == [];
    }
    WaitLoopAfterFirstPoll(first, rest);
  }

  /** The error text wins over the status read: once the loop is left, a
      non-empty error text is thrown even though the emulator reported
      running. */
  lemma ExecuteProcessErrorTextWins(stdout: string, stderr: string, firstPollMs: nat)
    requires GetStatus(stdout) == Ok(true) && firstPollMs <= TimeoutMs
    ensures ExecuteProcess(Launched(stdout, stderr), firstPollMs)
         == (if |GetError(stderr)| == 0 then Completed else Threw(EmulatorReported(GetError(stderr))))
  {
  }

  /** `StartStorageEmulator`: spawn `start` only if a status check says the
      emulator is not running. */
  function StartStorageEmulator(status: ProcessRun, start: ProcessRun, firstPollMs: nat): (r: Supervision)
    ensures |r.attempted| >= 1 && r.attempted[0] == Status
    ensures Start in r.attempted <==> IsProcessRunning(status) == Ok(false)
    ensures IsProcessRunning(status) == Ok(true) ==> r == Supervision([Status], Completed)
    ensures IsProcessRunning(status).Err? ==> r == Supervision([Status], Threw(IsProcessRunning(status).error))
    ensures IsProcessRunning(status) == Ok(false) ==> r == Supervision([Status, Start], ExecuteProcess(start, firstPollMs))
  {
    Guarded(IsProcessRunning(status), false, Start, start, firstPollMs)
  }

  /** `StopStorageEmulator`: spawn `stop` only if a status check says the
      emulator is running. */
  function StopStorageEmulator(status: ProcessRun, stop: ProcessRun, firstPollMs: nat): (r: Supervision)
    ensures |r.attempted| >= 1 && r.attempted[0] == Status
    ensures Stop in r.attempted <==> IsProcessRunning(status) == Ok(true)
    ensures IsProcessRunning(status) == Ok(false) ==> r == Supervision([Status], Completed)
    ensures IsProcessRunning(status).Err? ==> r == Supervision([Status], Threw(IsProcessRunning(status).error))
    ensures IsProcessRunning(status) == Ok(true) ==> r == Supervision([Status, Stop], ExecuteProcess(stop, firstPollMs))
  {
    Guarded(IsProcessRunning(status), true, Stop, stop, firstPollMs)
  }

  /** The shape both guards share: after the status check, issue `command`
      when the emulator's state is `when`. */
  function Guarded(check: Result<bool>, when: bool, command: ProcessCommand, run: ProcessRun, firstPollMs: nat): Supervision
    requires command != Status
  {
    match check
    case Err(e) => Supervision([Status], Threw(e))
    case Ok(running) =>
      if running == when then Supervision([Status, command], ExecuteProcess(run, firstPollMs))
      else Supervision([Status], Completed)
  }

  /** `GetRunningVersion`: the file version of the executable, or 0.0.0 when
      it cannot be read. */
  function GetRunningVersion(probe: Option<VersionTriple>): (v: VersionTriple)
    ensures probe.None? ==> v == VersionTriple(0, 0, 0)
    ensures probe.Some? ==> v == probe.value
  {
    match probe
    case None => VersionTriple(0, 0, 0)
    case Some(found) => found
  }
}
