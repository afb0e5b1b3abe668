/** The command dispatcher of src/command.cpp. `Command::execute` writes the
    command's report to the stream it is given (`out`) and its complaints to
    `std::cerr` (`err`), and answers 0 or 1. The `std::runtime_error`s the
    handlers throw are modelled as `Fail` outcomes that `Execute` catches. */
module Command {
  import opened Wrappers
  import opened Text
  import Storage
  import opened Engine
  import Config

  const NotInitialized := "Clay repository not initialized. Run 'clay init' first."
  const InitFailed := "Failed to initialize Clay repository"
  const RewindUsage := "Usage: clay rewind <snapshot-id|time>"
  const UndoFailed := "Failed to undo last change"
  const BranchUsage := "Usage: clay branch [--temp|--keep <name>]"
  const InvalidBranch := "Invalid branch command"
  const ManualMessage := "Manual snapshot"
  const TimelineTitle := "Snapshot Timeline:"
  /** The rule of 48 dashes under the title. */
  const TimelineRule := Dashes(48)

  function Dashes(n: nat): string {
    if n == 0 then [] else "-" + Dashes(n - 1)
  }

  lemma {:induction false} DashesOnly(n: nat)
    ensures '\n' !in Dashes(n)
  {
    if n > 0 {
      DashesOnly(n - 1);
    }
  }
  const NoSnapshots := "No snapshots available\n"

  /** `Command::help`. */
  const HelpText :=
    "Clay - Lightweight Version Control for Rapid Prototyping\n" +
    "Usage: clay <command> [options]\n\n" +
    "Commands:\n" +
    "  init [path]      Initialize a new repository\n" +
    "  status           Show current status\n" +
    "  timeline         List all snapshots\n" +
    "  rewind <target>  Restore to snapshot or time (e.g., clay rewind 14:30)\n" +
    "  undo             Undo last change\n" +
    "  branch --temp    Create temporary in-memory branch\n" +
    "  branch --keep <name> Commit temp branch as permanent\n" +
    "  commit [msg]     Create manual snapshot\n"

  // ---- dispatch

  /** The commands `execute` knows. */
  datatype Verb = Init | Status | Timeline | Rewind | Undo | Branch | Commit

  function Word(v: Verb): string {
    match v
    case Init => "init"
    case Status => "status"
    case Timeline => "timeline"
    case Rewind => "rewind"
    case Undo => "undo"
    case Branch => "branch"
    case Commit => "commit"
  }

  /** The `if`/`else if` chain on `args[0]`: the command a word names, if
      any. */
  function Lookup(w: string): (r: Option<Verb>)
    ensures r.Some? ==> Word(r.value) == w
    ensures r.None? ==> forall v :: Word(v) != w
  {
    if w == "init" then Some(Init)
    else if w == "status" then Some(Status)
    else if w == "timeline" then Some(Timeline)
    else if w == "rewind" then Some(Rewind)
    else if w == "undo" then Some(Undo)
    else if w == "branch" then Some(Branch)
    else if w == "commit" then Some(Commit)
    else None
  }

  /** What `execute` writes to `std::cerr` for an exception it catches. */
  function ErrorLine(e: string): string {
    "Error: " + e + "\n"
  }

  function UnknownLine(w: string): string {
    "Unknown command: " + w + "\n"
  }

  // ---- argument rules

  /** The three readings of a `rewind` target. */
  datatype RewindTarget = ByTime | Relative | ById

  /** `rewind`'s classification: a `:` anywhere makes it a clock time, else
      `min` anywhere makes it a relative time, else it is a snapshot id. The
      `:` test comes first, so `10:min` is a clock time. */
  function ClassifyTarget(target: string): (k: RewindTarget)
    ensures k == ByTime <==> ':' in target
    ensures k == Relative <==> ':' !in target && exists i :: OccursAtIndex("min", target, i)
    ensures k == ById <==> ':' !in target && forall i :: !OccursAtIndex("min", target, i)
  {
    OccursAt("min", target);
    if ':' in target then ByTime
    else if Occurs("min", target) then Relative
    else ById
  }

  /** The two forms `branch` accepts. */
  datatype BranchRequest = StartTemp | Keep(name: string)

  /** `branch`'s argument rules: `--temp`, or `--keep` followed by a name;
      fewer than two arguments is a usage error and anything else an
      invalid command. Arguments after the ones used are ignored. */
  function ParseBranch(args: seq<string>): (r: Result<BranchRequest>)
    ensures |args| < 2 ==> r == Failure(BranchUsage)
    ensures r == Success(StartTemp) <==> |args| >= 2 && args[1] == "--temp"
    ensures (r.Success? && r.value.Keep?) <==> |args| > 2 && args[1] == "--keep"
    ensures r.Success? && r.value.Keep? ==> r.value.name == args[2]
    ensures r.Failure? ==> r.error == BranchUsage || r.error == InvalidBranch
  {
    if |args| < 2 then Failure(BranchUsage)
    else if args[1] == "--temp" then Success(StartTemp)
    else if args[1] == "--keep" && |args| > 2 then Success(Keep(args[2]))
    else Failure(InvalidBranch)
  }

  /** `--keep` without a name is refused, and so is an unknown flag. */
  lemma BranchRefusals(cmd: string, flag: string)
    ensures ParseBranch([cmd, "--keep"]) == Failure(InvalidBranch)
    ensures flag != "--temp" && flag != "--keep" ==>
              forall rest :: ParseBranch([cmd, flag] + rest) == Failure(InvalidBranch)
  {
    assert [cmd, "--keep"][1] == "--keep";
    forall rest | flag != "--temp" && flag != "--keep"
      ensures ParseBranch([cmd, flag] + rest) == Failure(InvalidBranch)
    {
      assert ([cmd, flag] + rest)[1] == flag;
    }
  }

  /** `commit`'s message: the second argument, "Manual snapshot" without
      one. */
  function CommitMessage(args: seq<string>): string {
    if |args| > 1 then args[1] else ManualMessage
  }

  /** Only the second argument of `commit` is used: further ones change
      nothing, and without one the message is the fixed default. */
  lemma CommitMessageUses(args: seq<string>, extra: seq<string>)
    ensures |args| >= 2 ==> CommitMessage(args + extra) == args[1]
    ensures |args| <= 1 ==> CommitMessage(args) == ManualMessage
  {
    if |args| >= 2 {
      assert (args + extra)[1] == args[1];
    }
  }

  /** `init`'s workspace argument, "." by default. */
  function InitPath(args: seq<string>): string {
    if |args| > 1 then args[1] else "."
  }

  // ---- the timeline report

  /** The report of `timeline` for the given listing lines. */
  function TimelineText(lines: seq<string>): string {
    if lines == [] then NoSnapshots
    else Config.Unlines([TimelineTitle, TimelineRule] + lines)
  }

  /** The listing lines of a listing, as `listSnapshots` formats them. */
  function ListingLines(listing: seq<Snapshots.Snapshot>, timeString: int -> string): (lines: seq<string>)
    ensures |lines| == |listing|
    ensures forall i :: 0 <= i < |lines| ==> lines[i] == ListLine(listing[i], timeString)
  {
    seq(|listing|, i requires 0 <= i < |listing| => ListLine(listing[i], timeString))
  }

  lemma {:induction false} UnlinesSnoc(lines: seq<string>, line: string)
    ensures Config.Unlines(lines + [line]) == Config.Unlines(lines) + line + "\n"
    decreases |lines|
  {
    if lines == [] {
      assert [] + [line] == [line];
    } else {
      assert (lines + [line])[1..] == lines[1..] + [line];
      UnlinesSnoc(lines[1..], line);
    }
  }

  /** A reader that splits the timeline report at newlines gets back the
      title, the rule and the listing lines, provided no listing line holds
      a newline of its own. */
  lemma TimelineLines(lines: seq<string>)
    requires lines != []
    requires forall i :: 0 <= i < |lines| ==> '\n' !in lines[i]
    ensures Config.SplitLines(TimelineText(lines)) == [TimelineTitle, TimelineRule] + lines
  {
    var all := [TimelineTitle, TimelineRule] + lines;
    HeaderHasNoNewline();
    forall i | 0 <= i < |all| ensures '\n' !in all[i] {
      if i >= 2 {
        assert all[i] == lines[i - 2];
      }
    }
    Config.SplitLinesOfLines(all);
  }

  lemma HeaderHasNoNewline()
    ensures forall i :: 0 <= i < 2 ==> '\n' !in [TimelineTitle, TimelineRule][i]
  {
    DashesOnly(48);
    assert '\n' !in TimelineTitle;
  }

  // ---- the handlers

  /** What `init` does to the engine (`s` before, `s'` after) and reports: a
      store that does not open is an error and changes nothing; otherwise
      the tables are those of the workspace's database file, the settings
      are those read from clay.conf, a `stoi` failure is the
      error, and the engine counts as initialised once reading succeeded.
      Nothing else changes. */
  ghost predicate InitDone(s: EngineState, s': EngineState, args: seq<string>, env: Env, r: Outcome, out: string) {
    var loaded := Config.ApplyLines(s.settings, Config.SplitLines(ConfigText(env)));
    && (!env.storageOpens ==>
          r == Fail(InitFailed) && s'.settings == s.settings && s'.snapshots == s.snapshots && s'.deltas == s.deltas)
    && (env.storageOpens ==>
          && r == loaded.outcome && s'.settings == loaded.settings
          && s'.snapshots == env.database.snapshots && s'.deltas == env.database.deltas)
    && s'.initialized == (r == Pass || s.initialized)
    && s' == s.(settings := s'.settings, initialized := s'.initialized, snapshots := s'.snapshots, deltas := s'.deltas)
    && (r == Pass ==> out == "Initialized Clay repository at " + InitPath(args) + "\n")
    && (r.Fail? ==> out == [])
  }

  /** `Command::init`: initialise the engine at the given path ("." by
      default); an engine that does not come up is an error, and a `stoi`
      failure while reading the configuration propagates. */
  method RunInit(core: Core, args: seq<string>, env: Env) returns (r: Outcome, out: string)
    requires core.Valid()
    modifies core`autosaveInterval, core`idleThreshold, core`maxSnapshots, core`ignorePatterns, core`initialized, core.storage
    ensures core.Valid()
    ensures InitDone(old(core.State()), core.State(), args, env, r, out)
  {
    out := [];
    var res := core.Init(env);
    if res.Failure? {
      return Fail(res.error), [];
    }
    if !res.value {
      return Fail(InitFailed), [];
    }
    out := "Initialized Clay repository at " + InitPath(args) + "\n";
    r := Pass;
  }

  /** What `status` reports: refused before `init`, else the id of a newest
      snapshot, "" for none. */
  ghost predicate StatusDone(s: EngineState, r: Outcome, out: string) {
    && (!s.initialized ==> r == Fail(NotInitialized) && out == [])
    && (s.initialized && s.snapshots == map[] ==> r == Pass && out == "Current snapshot: \n")
    && (s.initialized && s.snapshots != map[] ==>
          r == Pass && exists id :: out == StatusLine(id) && Newest(s.snapshots, id))
  }

  /** `Command::status`: the id of the newest snapshot, "" for none. */
  method RunStatus(core: Core) returns (r: Outcome, out: string)
    requires core.Valid()
    ensures StatusDone(core.State(), r, out)
  {
    if !core.initialized {
      return Fail(NotInitialized), [];
    }
    var id := core.CurrentSnapshotId();
    out := StatusLine(id);
    r := Pass;
  }

  function StatusLine(id: string): string {
    "Current snapshot: " + id + "\n"
  }

  /** `id` is a snapshot with the greatest timestamp. */
  ghost predicate Newest(t: Storage.SnapshotTable, id: string) {
    id in t && forall k :: k in t ==> t[k].timestamp <= t[id].timestamp
  }

  /** What `timeline` reports: refused before `init`, else a title, a rule
      and one line per snapshot in listing order, or a notice when there is
      none. */
  ghost predicate TimelineDone(s: EngineState, timeString: int -> string, r: Outcome, out: string) {
    && (!s.initialized ==> r == Fail(NotInitialized) && out == [])
    && (s.initialized ==>
          r == Pass &&
          exists listing :: Storage.IsListing(s.snapshots, listing) &&
                            out == TimelineText(ListingLines(listing, timeString)))
  }

  /** `Command::timeline`. */
  method RunTimeline(core: Core, env: Env) returns (r: Outcome, out: string)
    requires core.Valid()
    ensures TimelineDone(core.State(), env.timeString, r, out)
  {
    if !core.initialized {
      return Fail(NotInitialized), [];
    }
    var lines, listing := core.ListSnapshots(env.timeString);
    assert lines == ListingLines(listing, env.timeString);
    out := TimelineReport(lines);
    r := Pass;
  }

  /** The printing part of `timeline`: the notice, or the title, the rule
      and each line, each ended by a newline. */
  method TimelineReport(lines: seq<string>) returns (out: string)
    ensures out == TimelineText(lines)
  {
    if lines == [] {
      return NoSnapshots;
    }
    out := TimelineTitle + "\n" + TimelineRule + "\n";
    HeaderText();
    var i := 0;
    while i < |lines|
      invariant 0 <= i <= |lines|
      invariant out == Config.Unlines([TimelineTitle, TimelineRule] + lines[..i])
    {
      ReportStep(lines, i);
      out := out + lines[i] + "\n";
      i := i + 1;
    }
    assert lines[..i] == lines;
  }

  lemma HeaderText()
    ensures Config.Unlines([TimelineTitle, TimelineRule] + []) == TimelineTitle + "\n" + TimelineRule + "\n"
  {
    var h := [TimelineTitle, TimelineRule];
    assert h + [] == h && h[1..] == [TimelineRule] && [TimelineRule][1..] == [];
    assert Config.Unlines([TimelineRule]) == TimelineRule + "\n" + Config.Unlines([]);
  }

  lemma ReportStep(lines: seq<string>, i: nat)
    requires i < |lines|
    ensures Config.Unlines([TimelineTitle, TimelineRule] + lines[..i + 1]) ==
            Config.Unlines([TimelineTitle, TimelineRule] + lines[..i]) + lines[i] + "\n"
  {
    var h := [TimelineTitle, TimelineRule];
    UnlinesSnoc(h + lines[..i], lines[i]);
    assert h + lines[..i + 1] == (h + lines[..i]) + [lines[i]];
  }

  /** What `rewind` does: a clock or relative target is only announced; a
      snapshot id is restored, which fails exactly when the id is not
      stored. */
  ghost predicate RewindDone(s: EngineState, args: seq<string>, r: Outcome, out: string) {
    && (!s.initialized ==> r == Fail(NotInitialized) && out == [])
    && (s.initialized && |args| < 2 ==> r == Fail(RewindUsage) && out == [])
    && (s.initialized && |args| >= 2 && ClassifyTarget(args[1]) == ByTime ==>
          r == Pass && out == "Rewinding to time: " + args[1] + "\n")
    && (s.initialized && |args| >= 2 && ClassifyTarget(args[1]) == Relative ==>
          r == Pass && out == "Rewinding " + args[1] + "\n")
    && (s.initialized && |args| >= 2 && ClassifyTarget(args[1]) == ById ==>
          && (r == Pass <==> args[1] in s.snapshots)
          && (r == Pass ==> out == "Restored snapshot: " + args[1] + "\n")
          && (r.Fail? ==> r.error == "Failed to restore snapshot: " + args[1] && out == []))
  }

  /** `Command::rewind`. */
  method RunRewind(core: Core, args: seq<string>) returns (r: Outcome, out: string)
    requires core.Valid()
    ensures RewindDone(core.State(), args, r, out)
  {
    if !core.initialized {
      return Fail(NotInitialized), [];
    }
    if |args| < 2 {
      return Fail(RewindUsage), [];
    }
    var target := args[1];
    match ClassifyTarget(target)
    case ByTime =>
      r, out := Pass, "Rewinding to time: " + target + "\n";
    case Relative =>
      r, out := Pass, "Rewinding " + target + "\n";
    case ById =>
      var ok := core.RestoreSnapshot(target);
      if !ok {
        return Fail("Failed to restore snapshot: " + target), [];
      }
      r, out := Pass, "Restored snapshot: " + target + "\n";
  }

  /** What `undo` does: it fails exactly when there is no snapshot to go
      back to. */
  ghost predicate UndoDone(s: EngineState, r: Outcome, out: string) {
    && (!s.initialized ==> r == Fail(NotInitialized) && out == [])
    && (s.initialized ==> (r == Pass <==> s.snapshots != map[]))
    && (s.initialized && s.snapshots == map[] ==> r == Fail(UndoFailed) && out == [])
    && (r == Pass ==> out == "Undo successful\n")
  }

  /** `Command::undo`. */
  method RunUndo(core: Core) returns (r: Outcome, out: string)
    requires core.Valid()
    ensures UndoDone(core.State(), r, out)
  {
    if !core.initialized {
      return Fail(NotInitialized), [];
    }
    var ok, _ := core.Undo();
    if !ok {
      return Fail(UndoFailed), [];
    }
    r, out := Pass, "Undo successful\n";
  }

  /** What `branch` does: start or commit the temp branch. The report is
      printed even when the engine refused the call because the flag was
      already in the requested state. Only the flag changes. */
  ghost predicate BranchDone(s: EngineState, s': EngineState, args: seq<string>, r: Outcome, out: string) {
    && s' == s.(tempBranchActive := s'.tempBranchActive)
    && (ParseBranch(args).Failure? ==>
          r == Fail(ParseBranch(args).error) && out == [] && s'.tempBranchActive == s.tempBranchActive)
    && (ParseBranch(args) == Success(StartTemp) ==>
          r == Pass && out == "Created temporary branch\n" &&
          s'.tempBranchActive == BranchStep(s.tempBranchActive, CreateTemp))
    && (ParseBranch(args).Success? && ParseBranch(args).value.Keep? ==>
          r == Pass && out == "Committed branch as: " + args[2] + "\n" &&
          s'.tempBranchActive == BranchStep(s.tempBranchActive, CommitTemp))
  }

  /** `Command::branch`. */
  method RunBranch(core: Core, args: seq<string>) returns (r: Outcome, out: string)
    modifies core`tempBranchActive
    ensures BranchDone(old(core.State()), core.State(), args, r, out)
  {
    match ParseBranch(args)
    case Failure(e) =>
      r, out := Fail(e), [];
    case Success(StartTemp) =>
      var _ := core.CreateTempBranch();
      r, out := Pass, "Created temporary branch\n";
    case Success(Keep(name)) =>
      var _ := core.CommitTempBranch(name);
      r, out := Pass, "Committed branch as: " + name + "\n";
  }

  /** The snapshot `commit` stores: manual, without deltas, with the message
      of `CommitMessage`. */
  function CommitSnapshot(args: seq<string>, env: Env): Snapshots.Snapshot {
    Snapshots.Snapshot(env.snapshotId, env.wallTime, false, MessageOrDefault(CommitMessage(args)), [])
  }

  /** What `commit` does: the store's outcome for the manual snapshot, whose
      error propagates; the time of the last snapshot moves to now only on
      success. Nothing else changes. */
  ghost predicate CommitDone(s: EngineState, s': EngineState, args: seq<string>, env: Env, r: Outcome, out: string) {
    && (exists res :: Storage.StoreOutcome(s.snapshots, s.deltas, CommitSnapshot(args, env), res, s'.snapshots, s'.deltas)
                      && (res.Success? <==> r == Pass)
                      && (res.Failure? ==> r == Fail(res.error)))
    && s'.lastSnapshotTime == (if r == Pass then env.steadyNow else s.lastSnapshotTime)
    && s' == s.(lastSnapshotTime := s'.lastSnapshotTime, snapshots := s'.snapshots, deltas := s'.deltas)
    && (r == Pass ==> out == "Created manual snapshot\n")
    && (r.Fail? ==> out == [])
  }

  /** `Command::commit`. */
  method RunCommit(core: Core, args: seq<string>, env: Env) returns (r: Outcome, out: string)
    requires core.Valid()
    modifies core.storage, core`lastSnapshotTime
    ensures core.Valid()
    ensures CommitDone(old(core.State()), core.State(), args, env, r, out)
  {
    var res := core.TakeSnapshot(false, CommitMessage(args), env);
    if res.Failure? {
      return Fail(res.error), [];
    }
    r, out := Pass, "Created manual snapshot\n";
  }

  /** The handler of each command: its outcome, report and new state. The
      reading commands leave the engine as it was. */
  ghost predicate Handled(v: Verb, s: EngineState, s': EngineState, args: seq<string>, env: Env, r: Outcome, out: string) {
    match v
    case Init => InitDone(s, s', args, env, r, out)
    case Status => s' == s && StatusDone(s, r, out)
    case Timeline => s' == s && TimelineDone(s, env.timeString, r, out)
    case Rewind => s' == s && RewindDone(s, args, r, out)
    case Undo => s' == s && UndoDone(s, r, out)
    case Branch => BranchDone(s, s', args, r, out)
    case Commit => CommitDone(s, s', args, env, r, out)
  }

  /** What `execute` does: help and 1 for no command, and for an unknown one
      also the complaint on `err`, leaving the engine alone; otherwise the
      command's handler runs, and its report and 0 come back, or, when it
      threw, nothing on `out`, the error on `err` and 1. */
  ghost predicate Executed(s: EngineState, s': EngineState, args: seq<string>, env: Env,
                           code: int, out: string, err: string) {
    if args == [] then code == 1 && out == HelpText && err == [] && s' == s
    else match Lookup(args[0])
      case None => code == 1 && out == HelpText && err == UnknownLine(args[0]) && s' == s
      case Some(v) =>
        exists r :: Handled(v, s, s', args, env, r, out) &&
                    code == (if r == Pass then 0 else 1) &&
                    err == (if r.Fail? then ErrorLine(r.error) else [])
  }

  /** The `if`/`else if` chain of `execute` once the command is known: the
      command's handler runs. */
  method Dispatch(core: Core, v: Verb, args: seq<string>, env: Env) returns (r: Outcome, out: string)
    requires core.Valid()
    modifies core, core.storage
    ensures core.Valid()
    ensures Handled(v, old(core.State()), core.State(), args, env, r, out)
  {
    match v {
      case Init => r, out := RunInit(core, args, env);
      case Status => r, out := RunStatus(core);
      case Timeline => r, out := RunTimeline(core, env);
      case Rewind => r, out := RunRewind(core, args);
      case Undo => r, out := RunUndo(core);
      case Branch => r, out := RunBranch(core, args);
      case Commit => r, out := RunCommit(core, args, env);
    }
  }

  /** `Command::execute`. */
  method Execute(core: Core, args: seq<string>, env: Env) returns (code: int, out: string, err: string)
    requires core.Valid()
    modifies core, core.storage
    ensures core.Valid()
    ensures Executed(old(core.State()), core.State(), args, env, code, out, err)
  {
    if args == [] {
      return 1, HelpText, [];
    }
    var verb := Lookup(args[0]);
    if verb.None? {
      return 1, HelpText, UnknownLine(args[0]);
    }
    var r: Outcome;
    r, out := Dispatch(core, verb.value, args, env);
    if r.Fail? {
      code, err := 1, ErrorLine(r.error);
    } else {
      code, err := 0, [];
    }
  }

  /** The exit code of `execute` is 0 or 1; for a known command it is 0
      exactly when nothing went to `err`, and a failed command prints
      nothing on `out` and one "Error:" line on `err`. The reading commands
      and a missing or unknown command leave the engine as it was. */
  lemma ExecutedCodes(s: EngineState, s': EngineState, args: seq<string>, env: Env,
                      code: int, out: string, err: string)
    requires Executed(s, s', args, env, code, out, err)
    ensures code == 0 || code == 1
    ensures args != [] && Lookup(args[0]).Some? ==>
              (code == 0 <==> err == []) &&
              (code == 1 ==> out == [] && exists e :: err == ErrorLine(e))
    ensures args == [] || Lookup(args[0]).None? ==> s' == s && code == 1 && out == HelpText
    ensures args != [] && Lookup(args[0]).Some? && Lookup(args[0]).value in {Status, Timeline, Rewind, Undo} ==> s' == s
  {
    if args != [] && Lookup(args[0]).Some? {
      var r :| Handled(Lookup(args[0]).value, s, s', args, env, r, out) &&
               code == (if r == Pass then 0 else 1) &&
               err == (if r.Fail? then ErrorLine(r.error) else []);
      if r.Fail? {
        assert err == ErrorLine(r.error);
      }
    }
  }
}
