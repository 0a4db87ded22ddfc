/**
 The command-line driver `Program` of RemoveTablesAndBlobs: the version gate
 on the running storage emulator, the decision whether to start the emulator,
 the splitting of the `--tables` and `--blobs` options into names, and the
 two deletion sweeps over those names.

 The storage account is abstract: a `Store` knows which names exist and
 which names a delete call fails for (a connection or request error). The
 emulator's processes, the file-version probe and the parsed command line are
 inputs.
 */
module Program {
  import opened Strings
  import opened EmulatorManager

  /** `minVersion`: the oldest emulator the tool accepts, 5.3. */
  const MinMajor: int := 5
  const MinMinor: int := 3

  /** The reading the class comment gives: an emulator version is at least
      5.3 in the usual, lexicographic order of (major, minor). */
  predicate AtLeastMinimum(major: int, minor: int) {
    major > MinMajor || (major == MinMajor && minor >= MinMinor)
  }

  /** `IsValidVersion`: the gate compares major and minor separately and
      ignores the build number. Every version it accepts is at least 5.3,
      but of those at least 5.3 it rejects exactly the ones with a newer
      major and a minor below 3, such as 6.0. */
  function IsValidVersion(major: int, minor: int, build: int): (valid: bool)
    ensures valid ==> AtLeastMinimum(major, minor)
    ensures AtLeastMinimum(major, minor) && !valid <==> major > MinMajor && minor < MinMinor
  {
    major >= MinMajor && minor >= MinMinor
  }

  /** The build number never decides the gate. */
  lemma VersionGateIgnoresBuild(major: int, minor: int, b1: int, b2: int)
    ensures IsValidVersion(major, minor, b1) == IsValidVersion(major, minor, b2)
  {
  }

  /** 5.3.0 passes; 5.2.9 and 6.0.0 do not. */
  lemma VersionGateExamples()
    ensures IsValidVersion(5, 3, 0)
    ensures !IsValidVersion(5, 2, 9)
    ensures !IsValidVersion(6, 0, 0) && AtLeastMinimum(6, 0)
  {
  }

  /** When the version cannot be read, the 0.0.0 it stands in for fails the
      gate. */
  lemma UnreadableVersionFailsGate()
    ensures var v := GetRunningVersion(None); !IsValidVersion(v.major, v.minor, v.build)
  {
  }

  /** The parsed command line. */
  datatype Options = Options(tables: string, blobs: string, verbose: bool)

  /** The separator of both lists: a comma when the tables option holds
      one, otherwise a space. */
  function Separator(tables: string): (c: char)
    ensures c == ',' || c == ' '
    ensures c == ',' <==> ',' in tables
  {
    if ',' in tables then ',' else ' '
  }

  /** The table names: the tables option cut at every separator, empty names
      kept, in order. Joined back with the separator they give the option. */
  function TableNames(opts: Options): (names: seq<string>)
    ensures |names| >= 1
    ensures Join(names, [Separator(opts.tables)]) == opts.tables
    ensures forall i :: 0 <= i < |names| ==> Separator(opts.tables) !in names[i]
  {
    var c := Separator(opts.tables);
    JoinSplit(opts.tables, [c]);
    SplitPiecesAvoidSeparator(opts.tables, c);
    Split(opts.tables, [c])
  }

  /** The container names: the blobs option cut at the separator chosen by
      the TABLES option. */
  function BlobNames(opts: Options): (names: seq<string>)
    ensures |names| >= 1
    ensures Join(names, [Separator(opts.tables)]) == opts.blobs
    ensures forall i :: 0 <= i < |names| ==> Separator(opts.tables) !in names[i]
  {
    var c := Separator(opts.tables);
    JoinSplit(opts.blobs, [c]);
    SplitPiecesAvoidSeparator(opts.blobs, c);
    Split(opts.blobs, [c])
  }

  /** Two or more comma-free table names written with commas come back in
      order. */
  lemma CommaTablesRoundTrip(names: seq<string>, blobs: string, verbose: bool)
    requires |names| >= 2
    requires forall i :: 0 <= i < |names| ==> ',' !in names[i]
    ensures TableNames(Options(Join(names, ","), blobs, verbose)) == names
  {
    JoinShowsSeparator(names, ',');
    assert [','] == ",";
    SplitJoin(names, ",");
  }

  /** Table names free of commas and spaces written with spaces come back in
      order. */
  lemma SpaceTablesRoundTrip(names: seq<string>, blobs: string, verbose: bool)
    requires |names| >= 1
    requires forall i :: 0 <= i < |names| ==> ',' !in names[i] && ' ' !in names[i]
    ensures TableNames(Options(Join(names, " "), blobs, verbose)) == names
  {
    JoinAvoids(names, " ", ',');
    assert [' '] == " ";
    SplitJoin(names, " ");
  }

  /** A comma-separated blobs option is not cut at its commas when the
      tables option has none (and it holds no space): the whole option is one
      container name. */
  lemma BlobSeparatorFollowsTables(opts: Options)
    requires ',' !in opts.tables && ' ' !in opts.blobs
    ensures BlobNames(opts) == [opts.blobs]
  {
    SplitWithoutSeparator(opts.blobs, [' ']);
  }

  /** The storage account behind the emulator: which names exist and which
      names a delete call fails for. */
  datatype Store = Store(present: set<string>, faulty: set<string>)

  datatype Account = Account(tables: Store, containers: Store)

  /** What one delete call did: removed the entity (`DeleteIfExistsAsync`
      returned true), found nothing (it returned false), or threw. */
  datatype Deletion = Removed | Absent | Failed

  /** One `DeleteIfExistsAsync` call. */
  function Attempt(store: Store, name: string): (r: (Store, Deletion))
    ensures r.1 == Failed <==> name in store.faulty
    ensures r.1 == Removed <==> name !in store.faulty && name in store.present
    ensures r.0.faulty == store.faulty
    ensures r.0.present == if r.1 == Removed then store.present - {name} else store.present
  {
    if name in store.faulty then (store, Failed)
    else if name in store.present then (store.(present := store.present - {name}), Removed)
    else (store, Absent)
  }

  /** A deletion loop: the store afterwards, the outcome of each delete call
      made, in order, and whether an exception ended the loop. */
  datatype Sweep = Sweep(store: Store, outcomes: seq<Deletion>, stopped: bool)

  /** `DeleteTables`: every name is attempted, in order; a failing delete
      is caught and the loop goes on. */
  function DeleteTables(store: Store, names: seq<string>): (r: Sweep)
    ensures !r.stopped
    ensures |r.outcomes| == |names|
    ensures r.store.faulty == store.faulty
    decreases |names|
  {
    if names == [] then Sweep(store, [], false)
    else
      var (next, d) := Attempt(store, names[0]);
      var rest := DeleteTables(next, names[1..]);
      Sweep(rest.store, [d] + rest.outcomes, false)
  }

  /** The names of `names` a sweep can remove: the ones whose delete call
      does not fail. */
  function Removable(store: Store, names: seq<string>): set<string> {
    set n | n in names && n !in store.faulty
  }

  /** Each table's delete call fails exactly when the store fails it, and
      removes the table exactly when it exists, does not fail, and was not
      already removed under an earlier occurrence of its name. */
  lemma {:induction false} TableOutcomes(store: Store, names: seq<string>)
    ensures var r := DeleteTables(store, names);
      forall i :: 0 <= i < |names| ==>
        && (r.outcomes[i] == Failed <==> names[i] in store.faulty)
        && (r.outcomes[i] == Removed <==> names[i] in store.present && names[i] !in store.faulty && names[i] !in names[..i])
    decreases |names|
  {
    if names != [] {
      var (next, d) := Attempt(store, names[0]);
      var tail := names[1..];
      TableOutcomes(next, tail);
      var r := DeleteTables(store, names);
      var rest := DeleteTables(next, tail);
      assert r.outcomes == [d] + rest.outcomes;
      forall i | 1 <= i < |names|
        ensures r.outcomes[i] == Removed <==> names[i] in store.present && names[i] !in store.faulty && names[i] !in names[..i]
      {
        assert r.outcomes[i] == rest.outcomes[i - 1];
        assert names[i] == tail[i - 1];
        assert names[..i] == [names[0]] + tail[..i - 1];
      }
    }
  }

  /** After the table sweep the store holds exactly the tables that were
      there and are not removable by the list. */
  lemma {:induction false} TablesRemoveExactly(store: Store, names: seq<string>)
    ensures DeleteTables(store, names).store.present == store.present - Removable(store, names)
    decreases |names|
  {
    if names != [] {
      var (next, d) := Attempt(store, names[0]);
      TablesRemoveExactly(next, names[1..]);
      assert next.faulty == store.faulty;
      RemovableCons(store, names);
    }
  }

  lemma RemovableCons(store: Store, names: seq<string>)
    requires names != []
    ensures Removable(store, names)
         == Removable(store, names[1..]) + (if names[0] in store.faulty then {} else {names[0]})
  {
    assert names == [names[0]] + names[1..];
    forall n | n in Removable(store, names)
      ensures n in Removable(store, names[1..]) + (if names[0] in store.faulty then {} else {names[0]})
    {
      if n != names[0] {
        assert n in names[1..];
      }
    }
  }

  /** `DeleteBlobs`: the names are attempted in order until a delete call
      throws; nothing catches it, so the remaining names are never
      attempted. */
  function DeleteBlobs(store: Store, names: seq<string>): (r: Sweep)
    ensures 0 < |r.outcomes| <= |names| || (|r.outcomes| == 0 && !r.stopped)
    ensures !r.stopped ==> |r.outcomes| == |names|
    ensures r.stopped <==> Failed in r.outcomes
    ensures r.stopped ==> r.outcomes[|r.outcomes| - 1] == Failed
    ensures r.store.faulty == store.faulty
    decreases |names|
  {
    if names == [] then Sweep(store, [], false)
    else
      var (next, d) := Attempt(store, names[0]);
      if d == Failed then Sweep(store, [Failed], true)
      else
        var rest := DeleteBlobs(next, names[1..]);
        Sweep(rest.store, [d] + rest.outcomes, rest.stopped)
  }

  /** Index of the first name the store fails, or `|names|` when there is
      none. */
  function FirstFaulty(store: Store, names: seq<string>): (k: nat)
    ensures k <= |names|
    ensures forall i :: 0 <= i < k ==> names[i] !in store.faulty
    ensures k < |names| ==> names[k] in store.faulty
    decreases |names|
  {
    if names == [] || names[0] in store.faulty then 0
    else 1 + FirstFaulty(store, names[1..])
  }

  /** The blob sweep is the table sweep cut short: it makes the delete calls
      of the table sweep over the names up to and including the first failing
      one, and stops exactly when there is such a name. */
  lemma {:induction false} BlobsAreTablesUpToFirstFailure(store: Store, names: seq<string>)
    ensures var k := FirstFaulty(store, names);
      var r := DeleteBlobs(store, names);
      && (r.stopped <==> k < |names|)
      && (if r.stopped then |r.outcomes| == k + 1 else |r.outcomes| == |names|)
      && (r.stopped ==> r.outcomes == DeleteTables(store, names[..k + 1]).outcomes && r.store == DeleteTables(store, names[..k]).store)
      && (!r.stopped ==> r == DeleteTables(store, names))
    decreases |names|
  {
    if names != [] {
      var (next, d) := Attempt(store, names[0]);
      if d == Failed {
        assert names[..1] == [names[0]];
        assert names[..1][1..] == [];
      } else {
        var tail := names[1..];
        BlobsAreTablesUpToFirstFailure(next, tail);
        var k := FirstFaulty(store, names);
        assert FirstFaulty(next, tail) == k - 1;
        if k < |names| {
          assert names[..k + 1][1..] == tail[..k];
          assert names[..k][1..] == tail[..k - 1];
        }
      }
    }
  }

  /** What `RunOptionsAndReturnExitCode` did: the sweeps it ran, each only
      when its option is non-empty, and the account afterwards. */
  datatype Report = Report(tableSweep: Option<Sweep>, blobSweep: Option<Sweep>, account: Account)
  {
    /** A blob deletion threw; the exception faults the returned `Task` and
        `Wait()` rethrows it out of `Main`. */
    predicate Escaped() {
      blobSweep.Some? && blobSweep.value.stopped
    }
  }

  /** `RunOptionsAndReturnExitCode`. */
  function RunOptions(opts: Options, account: Account): (r: Report)
    ensures r.tableSweep.Some? <==> |opts.tables| > 0
    ensures r.blobSweep.Some? <==> |opts.blobs| > 0
    ensures r.tableSweep.Some? ==> r.tableSweep.value == DeleteTables(account.tables, TableNames(opts))
    ensures r.blobSweep.Some? ==> r.blobSweep.value == DeleteBlobs(account.containers, BlobNames(opts))
    ensures r.account.tables == (if |opts.tables| > 0 then r.tableSweep.value.store else account.tables)
    ensures r.account.containers == (if |opts.blobs| > 0 then r.blobSweep.value.store else account.containers)
    ensures r.Escaped() <==> |opts.blobs| > 0 && FirstFaulty(account.containers, BlobNames(opts)) < |BlobNames(opts)|
  {
    BlobsAreTablesUpToFirstFailure(account.containers, BlobNames(opts));
    var tableSweep := if |opts.tables| > 0 then Some(DeleteTables(account.tables, TableNames(opts))) else None;
    var tables := if tableSweep.Some? then tableSweep.value.store else account.tables;
    var blobSweep := if |opts.blobs| > 0 then Some(DeleteBlobs(account.containers, BlobNames(opts))) else None;
    var containers := if blobSweep.Some? then blobSweep.value.store else account.containers;
    Report(tableSweep, blobSweep, Account(tables, containers))
  }

  /** Everything outside the program that `Main` depends on: the version
      probe, the status check at line 44, and the status check, start
      process and first poll time inside `StartStorageEmulator`. */
  datatype Host = Host(
    probe: Option<VersionTriple>,
    status: ProcessRun,
    startStatus: ProcessRun,
    start: ProcessRun,
    startPollMs: nat)

  /** How `Main` ends. */
  datatype MainOutcome =
    | RequirementsNotMet        // the version gate or the start failed
    | Crashed(error: Error)     // the unguarded status check threw
    | Hung                      // the start's wait loop never returns
    | ArgumentsRejected         // the command line did not parse
    | Ran(report: Report)       // the options were run

  /** The commands `Main` passed to `Process.Start`, in order, and how it
      ended. */
  datatype MainRun = MainRun(attempted: seq<ProcessCommand>, outcome: MainOutcome)

  predicate VersionOk(host: Host) {
    var v := GetRunningVersion(host.probe);
    IsValidVersion(v.major, v.minor, v.build)
  }

  /** `Main` from the version probe to the end of the deletions. `args` is
      the parse of the command line, `None` when it did not parse. */
  function MainWorkflow(host: Host, args: Option<Options>, account: Account): (r: MainRun)
    ensures !VersionOk(host) ==> r == MainRun([], RequirementsNotMet)
    ensures Start in r.attempted ==> VersionOk(host) && IsProcessRunning(host.status) == Ok(false)
    ensures r.outcome.Ran? ==> args.Some? && r.outcome.report == RunOptions(args.value, account)
    ensures r.outcome == ArgumentsRejected ==> args.None?
  {
    if !VersionOk(host) then MainRun([], RequirementsNotMet)
    else
      match IsProcessRunning(host.status)
      case Err(e) => MainRun([Status], Crashed(e))
      case Ok(running) =>
        var started := if running then Supervision([], Completed)
                       else StartStorageEmulator(host.startStatus, host.start, host.startPollMs);
        var attempted := [Status] + started.attempted;
        match started.completion
        case Diverges => MainRun(attempted, Hung)
        case Threw(_) => MainRun(attempted, RequirementsNotMet)
        case Completed =>
          match args
          case None => MainRun(attempted, ArgumentsRejected)
          case Some(opts) => MainRun(attempted, Ran(RunOptions(opts, account)))
  }

  /** The gate: the deletions are reached exactly when the version is valid
      and the emulator was either running already or started without an
      exception; an invalid version starts nothing and deletes nothing. */
  lemma DeletionGate(host: Host, opts: Options, account: Account)
    ensures var r := MainWorkflow(host, Some(opts), account);
      r.outcome.Ran? <==>
        && VersionOk(host)
        && (|| IsProcessRunning(host.status) == Ok(true)
            || (&& IsProcessRunning(host.status) == Ok(false)
                && StartStorageEmulator(host.startStatus, host.start, host.startPollMs).completion == Completed))
    ensures !VersionOk(host) ==> Start !in MainWorkflow(host, Some(opts), account).attempted
  {
  }

  /** A start that throws, whatever it throws, is reported as unmet
      requirements rather than escaping. */
  lemma FailedStartIsRequirementsNotMet(host: Host, args: Option<Options>, account: Account)
    requires VersionOk(host) && IsProcessRunning(host.status) == Ok(false)
    requires StartStorageEmulator(host.startStatus, host.start, host.startPollMs).completion.Threw?
    ensures MainWorkflow(host, args, account).outcome == RequirementsNotMet
    ensures Start in MainWorkflow(host, args, account).attempted
         <==> IsProcessRunning(host.startStatus) == Ok(false)
  {
  }
}
