# RemoveTablesAndBlobs — a Dafny model of its decision logic

RemoveTablesAndBlobs is a Windows command-line tool. It deletes named tables and blob
containers from the local Azure Storage Emulator. Before it touches storage it does two
things:

- It reads the emulator executable's file version and refuses to run against anything
  it considers older than 5.3.
- It asks the emulator for its status. If the emulator is not running, it starts it.

The emulator is supervised by `AzureStorageEmulatorManager`, which spawns the emulator
executable with `status`, `start` or `stop` and parses what the process prints. The
driver, `Program`, gates on the version and the emulator's state. It then splits the
`--tables` and `--blobs` options into names and runs two deletion loops.

This project models that logic as pure functions. It has three modules:

- `Strings` (`strings.dfy`) holds the .NET string operations the code relies on:
  - `String.Split` with one separator string, keeping empty pieces.
  - `String.Trim` over the Unicode white-space set, plus the white-space-and-NUL
    variant that `Boolean.Parse` uses.
  - LINQ `Last()`.
  - ASCII-only case-insensitive equality.
  - `Join`, which the code itself uses only for logging. Here it is the reference
    inverse that the round trips of `Split` are stated against.
- `EmulatorManager` (`emulator.dfy`) holds:
  - The parsing of the `status` output (`GetStatus`) and of the error stream
    (`GetError`).
  - `Boolean.Parse`.
  - The status check `IsProcessRunning`.
  - The wait loop of `ExecuteProcess` and the error it rethrows.
  - The `StartStorageEmulator`/`StopStorageEmulator` guards.
  - The `GetRunningVersion` probe with its 0.0.0 fallback.
- `Program` (`program.dfy`) holds:
  - The version gate `IsValidVersion` with its minimum of 5.3.
  - The separator choice and name splitting of `RunOptionsAndReturnExitCode`.
  - `DeleteTables` and `DeleteBlobs` over an abstract storage account.
  - `Main`, from the version probe to the end of the deletions.

Everything outside the program is an input:

- A spawned process (`ProcessRun`) is either "could not be started" or the complete
  text of its standard output and error.
- The version probe is an `Option<VersionTriple>`.
- The stopwatch reading at the wait loop's first poll is a number.
- The storage account is a `Store` for each kind of entity. It records which names
  exist and for which names a delete call fails.
- The parsed command line is an `Option<Options>`. `None` stands for a parse failure.

How the model treats a few behaviours of the code:

- **Version gate.** The class comment promises "storage emulator >= 5.3", which reads
  as an ordinary version comparison. The code compares each component separately
  (`major >= 5 && minor >= 3`), so 6.0 is rejected. The model follows the code.
  `IsValidVersion` states exactly which versions at least 5.3 are nonetheless rejected.
- **Wait loop.** The loop in `ExecuteProcess` runs while the status is false or the
  stopwatch is past 30 seconds, so it never exits on a timeout. Each poll also re-reads
  the spawned command's own standard output, which the first read has drained.
  - The model states the loop over any finite run of polls (`WaitLoop`, `DrainedPolls`).
  - It proves that the loop can only end on its first poll.
  - `ExecuteProcess` reports `Diverges` when the first poll does not end the loop.
- **Blob separator.** The blob list is split with the separator chosen from the
  *tables* option, as the code does.
- **Deletion failures.** A failing table deletion is caught and the loop goes on. A
  failing blob deletion is not caught: it ends the loop and escapes `Main` through
  `Wait()`. `Report.Escaped` marks that case.

## Model

| member | source | states |
|---|---|---|
| Strings.IsWhiteSpace | source/AzureStorageEmulatorManager.cs:117 | the `Char.IsWhiteSpace` set behind `Trim()`: never ':', NUL or an ASCII letter, so trimming never eats into `IsRunning`, `True` or `False` |
| Strings.StartsWith | source/AzureStorageEmulatorManager.cs:110 | a text starts with a prefix iff it is that prefix followed by the rest of the text |
| Strings.Split | source/AzureStorageEmulatorManager.cs:110 | `String.Split` always yields at least one piece; what the pieces are is fixed by `JoinSplit` (they join back to the text) and `SplitPiecesHoldNoSeparator` (no piece holds the separator, "\r\n" included) |
| Strings.LastPiece | source/AzureStorageEmulatorManager.cs:117 | LINQ `Last()` returns one of the pieces; `LastPieceOfAppend` says which one |
| Strings.LastPieceOfAppend | source/AzureStorageEmulatorManager.cs:117 | `Last()` is the element appended last, whatever precedes it |
| Strings.Trim | source/AzureStorageEmulatorManager.cs:117 | no dropped character is left at either end of the result |
| Strings.TrimRemovesPadding | source/AzureStorageEmulatorManager.cs:117 | the result is an infix of the input with only dropped characters before and after it |
| Strings.TrimOfPadded | source/AzureStorageEmulatorManager.cs:117 | trimming text padded on both sides with dropped characters gives back exactly the inner text |
| Strings.TrimIdempotent | source/AzureStorageEmulatorManager.cs:123 | trimming twice is trimming once |
| Strings.JoinSplit | source/Program.cs:89 | joining the pieces of `String.Split` with the separator rebuilds the text, so no character is lost or reordered |
| Strings.SplitJoin | source/Program.cs:89 | names free of a one-character separator come back unchanged from splitting their join |
| Strings.SplitConcat | source/AzureStorageEmulatorManager.cs:110 | splitting two texts joined by a separator that cannot overlap itself splits each text on its own |
| Strings.SplitPiecesHoldNoSeparator | source/AzureStorageEmulatorManager.cs:110 | no line cut at a separator of any length, "\r\n" included, still holds that separator at any position |
| Strings.FirstPieceIsPrefix | source/AzureStorageEmulatorManager.cs:110 | the first piece of a split is a prefix of the text |
| Strings.SplitPiecesAvoidSeparator | source/Program.cs:89 | no piece produced by splitting on one character contains that character |
| Strings.LastPieceAfterFinalSeparator | source/AzureStorageEmulatorManager.cs:117 | the last piece is the text after the final occurrence of the separator |
| EmulatorManager.ArgumentsDistinguishCommands | source/AzureStorageEmulatorManager.cs:86-105 | each command reaches the executable as its own verb, `start`, `stop` or `status`, and no two commands share one |
| EmulatorManager.ParseBool | source/AzureStorageEmulatorManager.cs:117 | `Boolean.Parse`: success only on "True"/"False" in any ASCII casing after stripping white space and NUL, otherwise a format error carrying the text |
| EmulatorManager.ParseBoolAcceptsEveryCasing | source/AzureStorageEmulatorManager.cs:117 | every casing of "True"/"False", padded with white space or NUL, parses to its value |
| EmulatorManager.ParseBoolOfBoolText | source/AzureStorageEmulatorManager.cs:117 | `bool.ToString()` parses back to the same value |
| EmulatorManager.AfterLastColon | source/AzureStorageEmulatorManager.cs:117 | `Split(':').Select(Trim).Last()` yields a segment with no ':' and no white space at either end; `AfterLastColonOfSplitText` and `AfterLastColonWithoutColon` say which segment |
| EmulatorManager.AfterLastColonOfSplitText | source/AzureStorageEmulatorManager.cs:117 | the segment after the final ':' is what survives, trimmed |
| EmulatorManager.AfterLastColonWithoutColon | source/AzureStorageEmulatorManager.cs:123 | without ':' the whole trimmed text is the segment |
| EmulatorManager.GetError | source/AzureStorageEmulatorManager.cs:120-124 | the error text surfaced has no ':' and no white space at either end |
| EmulatorManager.GetErrorOfEmptyStream | source/AzureStorageEmulatorManager.cs:120-124 | an empty error stream surfaces as "" |
| EmulatorManager.GetErrorOfLabelledMessage | source/AzureStorageEmulatorManager.cs:120-124 | `<tag>: <message>` surfaces exactly the message, e.g. "Error: emulator busy" gives "emulator busy" |
| EmulatorManager.Filter | source/AzureStorageEmulatorManager.cs:110 | the kept elements are elements of the input the predicate selects, and every selected element is kept |
| EmulatorManager.FilterAppend | source/AzureStorageEmulatorManager.cs:110 | filtering distributes over concatenation, so order is kept |
| EmulatorManager.StatusLines | source/AzureStorageEmulatorManager.cs:110 | the lines `SingleOrDefault` looks at are exactly the lines of the output that start with `IsRunning`, each of them an actual line of the output |
| EmulatorManager.GetStatus | source/AzureStorageEmulatorManager.cs:107-118 | no `IsRunning` line gives false; two or more give the `SingleOrDefault` error; the only other error is a boolean format error |
| EmulatorManager.StatusWithoutStatusLine | source/AzureStorageEmulatorManager.cs:110-115 | when no line starts with `IsRunning`, the status is false, never an error |
| EmulatorManager.StatusOfSingleStatusLine | source/AzureStorageEmulatorManager.cs:110-117 | with exactly one `IsRunning` line, the status is `Boolean.Parse` of its trimmed text after the last ':' |
| EmulatorManager.StatusOfTwoStatusLines | source/AzureStorageEmulatorManager.cs:110 | two `IsRunning` lines anywhere make the read fail |
| EmulatorManager.StatusLinesOfJoinedOutput | source/AzureStorageEmulatorManager.cs:110 | the `IsRunning` lines of output joined by a line break are those of each part, in order |
| EmulatorManager.StatusIgnoresOtherLines | source/AzureStorageEmulatorManager.cs:110 | blank lines and lines not starting with `IsRunning`, added before or after, never change the status |
| EmulatorManager.StatusOfRunningLine | source/AzureStorageEmulatorManager.cs:110-117 | `IsRunning:<value>` gives the boolean the trimmed value spells, in any casing |
| EmulatorManager.StatusLineRoundTrip | source/AzureStorageEmulatorManager.cs:107-118 | the emulator's `IsRunning: True` / `IsRunning: False` parses back to the flag printed |
| EmulatorManager.StatusOfNonBooleanValue | source/AzureStorageEmulatorManager.cs:117 | a value that is no boolean literal, like `maybe`, gives a format error |
| EmulatorManager.StatusOfLineWithoutColon | source/AzureStorageEmulatorManager.cs:117 | an `IsRunning` line without ':' is its own segment and gives a format error |
| EmulatorManager.IsProcessRunning | source/AzureStorageEmulatorManager.cs:20-36 | a process that cannot be started throws; otherwise the status is that of the process's output |
| EmulatorManager.WaitLoop | source/AzureStorageEmulatorManager.cs:69-73 | the loop throws only the status read's errors, and exits only after a poll that saw "running" within 30000 ms |
| EmulatorManager.WaitLoopIgnoresTimeout | source/AzureStorageEmulatorManager.cs:69 | when every poll is after 30000 ms the loop never exits normally: the timeout keeps it polling |
| EmulatorManager.DrainedPolls | source/AzureStorageEmulatorManager.cs:67-73 | the first poll reads the command's output and every later one reads the drained, empty output |
| EmulatorManager.DrainedPollsNeverExit | source/AzureStorageEmulatorManager.cs:69-73 | polls of drained output never end the loop |
| EmulatorManager.WaitLoopNeverEndsUnlessFirstPollDoes | source/AzureStorageEmulatorManager.cs:69-73 | if the first read does not see "running" within the timeout, no number of later polls ends the loop |
| EmulatorManager.ExecuteProcess | source/AzureStorageEmulatorManager.cs:54-82 | a command that cannot start throws; a completed command had no error text; a rethrown error is exactly the non-empty error text |
| EmulatorManager.ExecuteProcessFollowsWaitLoop | source/AzureStorageEmulatorManager.cs:67-81 | over any finite run of polls, `ExecuteProcess` diverges iff the loop is still polling, rethrows the loop's error, and after an exit throws the error text iff it is non-empty |
| EmulatorManager.ExecuteProcessErrorTextWins | source/AzureStorageEmulatorManager.cs:78-81 | once the loop is left, the command fails with exactly the captured error text iff that text is non-empty |
| EmulatorManager.StartStorageEmulator | source/AzureStorageEmulatorManager.cs:38-44 | the status is always checked first; `Process.Start` is called for `start` iff the check says not running; otherwise the call returns or rethrows the check's error |
| EmulatorManager.StopStorageEmulator | source/AzureStorageEmulatorManager.cs:46-52 | the status is always checked first; `Process.Start` is called for `stop` iff the check says running; otherwise the call returns or rethrows the check's error |
| EmulatorManager.GetRunningVersion | source/AzureStorageEmulatorManager.cs:126-142 | an unreadable version becomes 0.0.0 and a readable one is passed through |
| Program.IsValidVersion | source/Program.cs:78-81 | with the minimum 5.3 of line 20, every accepted version is at least 5.3; of the versions at least 5.3, exactly those with a newer major and a minor below 3 are rejected |
| Program.VersionGateIgnoresBuild | source/Program.cs:78-81 | the build number never changes the verdict |
| Program.VersionGateExamples | source/Program.cs:80 | 5.3.0 passes; 5.2.9 and 6.0.0 fail, although 6.0 is newer than 5.3 |
| Program.UnreadableVersionFailsGate | source/Program.cs:32-33 | the 0.0.0 stand-in for an unreadable version fails the gate |
| Program.Separator | source/Program.cs:89-94 | the separator is ',' iff the tables option holds a comma, else ' ' |
| Program.TableNames | source/Program.cs:89 | the table names, joined with the separator, give back the option: empty names kept, order kept; no name holds the separator |
| Program.BlobNames | source/Program.cs:94 | the container names, joined with the separator chosen from the tables option, give back the blobs option |
| Program.CommaTablesRoundTrip | source/Program.cs:89 | two or more comma-free names written with commas come back in order |
| Program.SpaceTablesRoundTrip | source/Program.cs:89 | names free of commas and spaces written with spaces come back in order |
| Program.BlobSeparatorFollowsTables | source/Program.cs:94 | a comma-separated blobs option is not cut at its commas when the tables option has none |
| Program.Attempt | source/Program.cs:158-198 | a delete call fails iff the store fails that name, removes the entity iff it exists and does not fail, and changes nothing else |
| Program.DeleteTables | source/Program.cs:107-136 | every name is attempted, one outcome per name, and the loop is never stopped by a failure |
| Program.TableOutcomes | source/Program.cs:117-128 | the i-th table's call fails iff the store fails it, and removes it iff it exists, does not fail and was not removed under an earlier occurrence of the name |
| Program.TablesRemoveExactly | source/Program.cs:117-128 | afterwards the store holds exactly the tables it held minus the listed ones whose deletion does not fail |
| Program.DeleteBlobs | source/Program.cs:138-156 | names are attempted in order; the loop stops iff a call fails, and then the failed call is the last one made |
| Program.FirstFaulty | source/Program.cs:145-148 | the index of the first name whose deletion fails, with none failing before it |
| Program.BlobsAreTablesUpToFirstFailure | source/Program.cs:145-148 | the blob loop makes the calls of the table loop up to and including the first failing name, stops iff there is one, and equals the table loop when none fails |
| Program.RunOptions | source/Program.cs:85-97 | the table loop runs iff the tables option is non-empty and the blob loop iff the blobs option is non-empty, each over its names; a blob deletion escapes iff the blobs option is non-empty and one of its names fails |
| Program.MainWorkflow | source/Program.cs:32-72 | an invalid version calls `Process.Start` for nothing and meets no requirements; `Process.Start` is called for `start` only for a valid version with the emulator not running; the deletions run the parsed options |
| Program.DeletionGate | source/Program.cs:32-61 | the deletions run iff the version is valid and the emulator was running or started without an exception; an invalid version never calls `Process.Start` for `start` |
| Program.FailedStartIsRequirementsNotMet | source/Program.cs:44-58 | any exception from starting the emulator is caught and reported as unmet requirements |

## Left out

- Process spawning and stream reading are inputs. This covers `ProcessStartInfo`, the
  emulator path, `ReadToEnd`, `WaitForExit` and `using` disposal. Reading the whole
  error stream before the output stream can deadlock a real process; that is not
  modelled.
- `Thread.Sleep` and the stopwatch are inputs. The wait loop's clock is the reading
  at each poll. The deletion loops' elapsed-time logging is left out.
- Console output is left out: the coloured text helpers, the ASCII art, the progress
  dots and `Console.ReadLine`.
- The `verbose` flag is carried in `Options` but changes nothing, since it only
  controls logging.
- The JSON configuration and the connection string are not modelled.
  `CloudStorageAccount.Parse` failing on a bad string is covered by a store that fails
  every name.
- The Azure SDK calls are replaced by the abstract `Store`, so `async`/`Task` is gone.
  `DeleteIfExistsAsync` returning true or false becomes `Removed`/`Absent`, and any
  exception becomes `Failed`.
- CommandLineParser is left out. The parse result is an input, and `HandleParseError`'s
  printing is reduced to `ArgumentsRejected`. A missing option whose value is `null`
  (where `Any()` would throw) is not modelled: options are always strings.
- `DeleteTables`' `tables != null` test is not modelled. The names always come from
  `Split`, which never yields null.
- `Environment.NewLine` is fixed to "\r\n", the Windows value.
- `StartsWith("IsRunning")` is culture-sensitive in .NET. It is modelled as an ordinal
  comparison.
- `Process.Start` returning null and `Process.Start` throwing (for example, a missing
  executable) are both `NotLaunched`, which throws `LaunchFailed`.
- `FileVersionInfo` reading is an input to `GetRunningVersion`.
- Names are compared exactly in `Store`. The storage service treats table names
  case-insensitively and rejects container names with upper-case letters. So
  `TableOutcomes`' clause "not removed under an earlier occurrence of the name" and
  `TablesRemoveExactly` describe a store that tells `Foo` from `foo`.
- EmulatorManager.ExecuteProcess: the non-terminating wait loop is represented by the
  outcome `Diverges`. Its connection to the loop is proved over every finite run of
  polls (`ExecuteProcessFollowsWaitLoop`), not over an infinite one.
- Program.MainWorkflow: its own contract states the version gate and the start rule.
  The full deletion condition is stated by `DeletionGate`.
