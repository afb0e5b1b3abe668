/** The snapshot engine `Core::Impl` of src/core.cpp, as an object over the
    snapshot store. Clock readings, the snapshot id (formatted from the wall
    clock) and the formatting of times are inputs of the methods. */
module Engine {
  import opened Wrappers
  import opened Text
  import opened Snapshots
  import Storage
  import opened Config
  import opened Ignore

  /** `generateAutoMessage`. */
  const AutoMessage := "Auto snapshot"

  /** Ticks of `steady_clock` per second (nanoseconds). */
  const TicksPerSecond := 1_000_000_000

  /** `duration_cast<seconds>(d).count()` for a duration of `ticks`:
      division truncating toward zero. */
  function WholeSeconds(ticks: int): (r: int)
    ensures ticks >= 0 ==> r >= 0 && r * TicksPerSecond <= ticks < (r + 1) * TicksPerSecond
    ensures ticks < 0 ==> r <= 0 && (-r) * TicksPerSecond <= -ticks < (1 - r) * TicksPerSecond
  {
    if ticks >= 0 then ticks / TicksPerSecond else -((-ticks) / TicksPerSecond)
  }

  /** The check of the `run` loop: the user was active within the idle
      threshold and the autosave interval has passed since the last
      snapshot, both counted in whole seconds. */
  predicate AutosaveDue(now: int, lastActivity: int, lastSnapshotTime: int, idleThreshold: int, autosaveInterval: int) {
    WholeSeconds(now - lastActivity) < idleThreshold &&
    WholeSeconds(now - lastSnapshotTime) >= autosaveInterval
  }

  /** For clock readings that do not go backwards, the whole-second test is a
      test on ticks: active less than `idleThreshold` seconds ago, and at
      least `autosaveInterval` seconds since the last snapshot. */
  lemma AutosaveInTicks(now: int, lastActivity: int, lastSnapshotTime: int, idleThreshold: int, autosaveInterval: int)
    requires lastActivity <= now && lastSnapshotTime <= now
    ensures AutosaveDue(now, lastActivity, lastSnapshotTime, idleThreshold, autosaveInterval) <==>
              now - lastActivity < idleThreshold * TicksPerSecond &&
              now - lastSnapshotTime >= autosaveInterval * TicksPerSecond
  {
    WholeSecondsBelow(now - lastActivity, idleThreshold);
    WholeSecondsBelow(now - lastSnapshotTime, autosaveInterval);
  }

  lemma WholeSecondsBelow(d: int, k: int)
    requires d >= 0
    ensures WholeSeconds(d) < k <==> d < k * TicksPerSecond
  {
    var r := WholeSeconds(d);
    if r < k {
      assert (r + 1) * TicksPerSecond <= k * TicksPerSecond;
    } else {
      assert k * TicksPerSecond <= r * TicksPerSecond;
    }
  }

  /** The message `takeSnapshot` stores: the given one, or the automatic
      message when it is empty. A stored message is never empty. */
  function MessageOrDefault(message: string): (r: string)
    ensures r != []
    ensures message != [] ==> r == message
  {
    if message == [] then AutoMessage else message
  }

  /** One line of `listSnapshots`: short id, time, origin, summary. */
  function ListLine(s: Snapshot, timeString: int -> string): string {
    ShortId(s.id) + " | " + timeString(s.timestamp) + " | " + OriginTag(s.autoSave) + " | " + Summary(s.message)
  }

  /** "auto" for an automatic snapshot, "manual" for one the user asked for. */
  function OriginTag(autoSave: bool): string {
    if autoSave then "auto" else "manual"
  }

  /** A listing line starts with the short id and the time and ends with the
      origin and the summary of the message. */
  lemma ListLineSpec(s: Snapshot, timeString: int -> string)
    ensures ShortId(s.id) + " | " + timeString(s.timestamp) + " | " <= ListLine(s, timeString)
    ensures var tail := " | " + OriginTag(s.autoSave) + " | " + Summary(s.message);
            var line := ListLine(s, timeString);
            |line| >= |tail| && line[|line| - |tail|..] == tail
  {
    var head := ShortId(s.id) + " | " + timeString(s.timestamp) + " | ";
    var tail := " | " + OriginTag(s.autoSave) + " | " + Summary(s.message);
    var line := ListLine(s, timeString);
    var front := ShortId(s.id) + " | " + timeString(s.timestamp);
    assert line == head + (OriginTag(s.autoSave) + " | " + Summary(s.message));
    assert line == front + tail;
  }

  /** The temp-branch operations. */
  datatype BranchOp = CreateTemp | CommitTemp | DiscardTemp

  /** The flag after one operation: create sets it when it is clear, commit
      and discard clear it when it is set, and a refused call leaves it. */
  function BranchStep(active: bool, op: BranchOp): (r: bool)
    ensures op.CreateTemp? ==> r
    ensures !op.CreateTemp? ==> !r
  {
    match op
    case CreateTemp => if active then active else true
    case CommitTemp => if !active then active else false
    case DiscardTemp => if !active then active else false
  }

  function BranchSteps(active: bool, ops: seq<BranchOp>): bool
    decreases |ops|
  {
    if ops == [] then active else BranchSteps(BranchStep(active, ops[0]), ops[1..])
  }

  /** After any sequence of calls the flag says whether the last call was a
      create; with no call it is unchanged. */
  lemma {:induction false} BranchStepsLast(active: bool, ops: seq<BranchOp>)
    ensures BranchSteps(active, ops) == if ops == [] then active else ops[|ops| - 1].CreateTemp?
    decreases |ops|
  {
    if ops != [] {
      BranchStepsLast(BranchStep(active, ops[0]), ops[1..]);
      if |ops| > 1 {
        assert ops[1..][|ops[1..]| - 1] == ops[|ops| - 1];
      }
    }
  }

  /** Inputs an engine operation draws from the environment. */
  datatype Env = Env(
    snapshotId: string,           // `strftime("%Y%m%d%H%M%S")` of the wall clock
    wallTime: int,                // `system_clock` as `time_t`
    steadyNow: int,               // `steady_clock::now()` in ticks
    configFile: Option<string>,   // contents of clay.conf, `None` when absent
    storageOpens: bool,           // whether the database opens and its tables exist
    database: Storage.ValidDatabase, // the tables of the workspace's database file
    timeString: int -> string)    // `Snapshot::timeString`

  /** The text of clay.conf as `init` reads it: the file's own text, or the
      default text it writes when the file is missing. */
  function ConfigText(env: Env): string {
    if env.configFile.Some? then env.configFile.value else DefaultConfig
  }

  /** The loop of `listSnapshots`: one line per snapshot, in order. */
  method ListLines(snapshots: seq<Snapshot>, timeString: int -> string) returns (lines: seq<string>)
    ensures |lines| == |snapshots|
    ensures forall i :: 0 <= i < |lines| ==> lines[i] == ListLine(snapshots[i], timeString)
  {
    lines := [];
    var i := 0;
    while i < |snapshots|
      invariant 0 <= i <= |snapshots|
      invariant |lines| == i
      invariant forall j :: 0 <= j < i ==> lines[j] == ListLine(snapshots[j], timeString)
    {
      var line := ListLine(snapshots[i], timeString);
      ghost var before := lines;
      lines := lines + [line];
      assert forall j :: 0 <= j < i ==> lines[j] == before[j];
      i := i + 1;
    }
  }

  /** Every field of the engine together with the two tables of its store:
      what a command may change. */
  datatype EngineState = EngineState(
    initialized: bool,
    settings: Settings,
    tempBranchActive: bool,
    lastActivity: int,
    lastSnapshotTime: int,
    snapshots: Storage.SnapshotTable,
    deltas: Storage.DeltaTable)

  /** `Core::Impl`: the store, the settings read from clay.conf, the activity
      clock state and the temp-branch flag. */
  class Core {
    const storage: Storage.Storage
    var initialized: bool
    var autosaveInterval: int
    var idleThreshold: int
    var maxSnapshots: int
    var ignorePatterns: seq<string>
    var tempBranchActive: bool
    var lastActivity: int
    var lastSnapshotTime: int

    ghost predicate Valid()
      reads this, storage
    {
      storage.Valid()
    }

    /** The configurable fields. */
    function CurrentSettings(): Settings
      reads this
    {
      Settings(autosaveInterval, idleThreshold, maxSnapshots, ignorePatterns)
    }

    /** The whole state of the engine and its store. */
    function State(): EngineState
      reads this, storage
    {
      EngineState(initialized, CurrentSettings(), tempBranchActive, lastActivity, lastSnapshotTime,
                  storage.snapshots, storage.deltas)
    }

    /** The member initialisers; both activity clocks start at `now`. */
    constructor (now: int)
      ensures Valid() && fresh(storage)
      ensures storage.snapshots == map[] && storage.deltas == map[]
      ensures !initialized && !tempBranchActive
      ensures CurrentSettings() == InitialSettings
      ensures lastActivity == now && lastSnapshotTime == now
    {
      storage := new Storage.Storage();
      initialized := false;
      autosaveInterval := 30;
      idleThreshold := 5;
      maxSnapshots := 100;
      ignorePatterns := [];
      tempBranchActive := false;
      lastActivity := now;
      lastSnapshotTime := now;
    }

    /** The `ignore_patterns` branch of `loadIgnorePatterns`: push the
        trimmed text before each comma, then the trimmed rest. */
    method AppendPatterns(value: string)
      modifies this`ignorePatterns
      ensures ignorePatterns == old(ignorePatterns) + SplitPatterns(value)
    {
      ghost var all := old(ignorePatterns) + SplitPatterns(value);
      var start := 0;
      assert value[0..] == value;
      while true
        invariant 0 <= start <= |value|
        invariant ignorePatterns + SplitPatterns(value[start..]) == all
        decreases |value| - start
      {
        var next := FindChar(value[start..], ',');
        if next.None? {
          break;
        }
        var end := start + next.value;
        AppendStep(ignorePatterns, all, value, start, end);
        ignorePatterns := ignorePatterns + [Trim(value[start..end])];
        start := end + 1;
      }
      AppendLast(ignorePatterns, all, value[start..]);
      ignorePatterns := ignorePatterns + [Trim(value[start..])];
    }

    /** `loadIgnorePatterns` over the lines of clay.conf: each line sets its
        key's field; a value `stoi` rejects throws, keeping the effect of the
        lines before it. */
    method LoadConfig(lines: seq<string>) returns (r: Outcome)
      modifies this`autosaveInterval, this`idleThreshold, this`maxSnapshots, this`ignorePatterns
      ensures CurrentSettings() == ApplyLines(old(CurrentSettings()), lines).settings
      ensures r == ApplyLines(old(CurrentSettings()), lines).outcome
    {
      var i := 0;
      while i < |lines|
        invariant 0 <= i <= |lines|
        invariant ApplyLines(old(CurrentSettings()), lines) == ApplyLines(CurrentSettings(), lines[i..])
      {
        var line := lines[i];
        assert lines[i..][0] == line && lines[i..][1..] == lines[i + 1..];
        var parsed := ParseLine(line);
        if parsed.Some? {
          var (key, value) := parsed.value;
          if key == "autosave_interval" {
            var n := Stoi(value);
            if n.Failure? { return Fail(n.error); }
            autosaveInterval := n.value;
          } else if key == "idle_threshold" {
            var n := Stoi(value);
            if n.Failure? { return Fail(n.error); }
            idleThreshold := n.value;
          } else if key == "max_snapshots" {
            var n := Stoi(value);
            if n.Failure? { return Fail(n.error); }
            maxSnapshots := n.value;
          } else if key == "ignore_patterns" {
            AppendPatterns(value);
          }
        }
        i := i + 1;
      }
      return Pass;
    }

    /** `init`: a missing clay.conf is created with the default text; a
        new store is opened on the workspace's database, replacing the one
        held before (`Success(false)` when it does not open); then the
        configuration is read, and a bad number throws. The engine counts as
        initialised once all of this succeeded. */
    method Init(env: Env) returns (r: Result<bool>)
      requires Valid()
      modifies this`autosaveInterval, this`idleThreshold, this`maxSnapshots, this`ignorePatterns, this`initialized, storage
      ensures Valid()
      ensures !env.storageOpens ==>
                && r == Success(false) && CurrentSettings() == old(CurrentSettings())
                && storage.snapshots == old(storage.snapshots) && storage.deltas == old(storage.deltas)
      ensures env.storageOpens ==>
                var loaded := ApplyLines(old(CurrentSettings()), SplitLines(ConfigText(env)));
                && CurrentSettings() == loaded.settings
                && r == (if loaded.outcome.Fail? then Failure(loaded.outcome.error) else Success(true))
                && storage.snapshots == env.database.snapshots && storage.deltas == env.database.deltas
      ensures initialized == (r == Success(true) || old(initialized))
    {
      if !env.storageOpens {
        return Success(false);
      }
      storage.Open(env.database);
      var outcome := LoadConfig(SplitLines(ConfigText(env)));
      if outcome.Fail? {
        return Failure(outcome.error);
      }
      initialized := true;
      return Success(true);
    }

    /** The watcher callback: a file event on a path that no pattern ignores
        marks the user as active at `now`; directory events and ignored paths
        change nothing. */
    method OnFileEvent(relPath: string, isDir: bool, now: int)
      modifies this`lastActivity
      ensures lastActivity == if isDir || IsIgnored(relPath, ignorePatterns) then old(lastActivity) else now
    {
      if isDir { return; }
      if IsIgnored(relPath, ignorePatterns) { return; }
      lastActivity := now;
    }

    /** `takeSnapshot`: store a snapshot without deltas, named by the id of
        the wall clock, whose message defaults to the automatic one; a
        failure of the store propagates and leaves the clock as it was. */
    method TakeSnapshot(autoSave: bool, message: string, env: Env) returns (r: Result<string>)
      requires Valid()
      modifies storage, this`lastSnapshotTime
      ensures Valid()
      ensures Storage.StoreOutcome(old(storage.snapshots), old(storage.deltas),
                Snapshot(env.snapshotId, env.wallTime, autoSave, MessageOrDefault(message), []),
                r, storage.snapshots, storage.deltas)
      ensures lastSnapshotTime == if r.Success? then env.steadyNow else old(lastSnapshotTime)
    {
      var s := Snapshot(env.snapshotId, env.wallTime, autoSave, MessageOrDefault(message), []);
      r := storage.Store(s);
      if r.Success? {
        lastSnapshotTime := env.steadyNow;
      }
    }

    /** One round of the `run` loop at time `now`: autosave when due (and
        then take `now` as the time of the last snapshot), then record a key
        press as activity. A failing autosave throws out of the loop. */
    method Tick(now: int, keyPressed: bool, env: Env) returns (r: Outcome)
      requires Valid()
      modifies storage, this`lastSnapshotTime, this`lastActivity
      ensures Valid()
      ensures !AutosaveDue(now, old(lastActivity), old(lastSnapshotTime), idleThreshold, autosaveInterval) ==>
                && r == Pass
                && storage.snapshots == old(storage.snapshots) && storage.deltas == old(storage.deltas)
                && lastSnapshotTime == old(lastSnapshotTime)
      ensures AutosaveDue(now, old(lastActivity), old(lastSnapshotTime), idleThreshold, autosaveInterval) ==>
                exists res :: Storage.StoreOutcome(old(storage.snapshots), old(storage.deltas),
                                Snapshot(env.snapshotId, env.wallTime, true, AutoMessage, []),
                                res, storage.snapshots, storage.deltas)
                              && (res.Success? <==> r == Pass)
      ensures r == Pass && AutosaveDue(now, old(lastActivity), old(lastSnapshotTime), idleThreshold, autosaveInterval) ==>
                lastSnapshotTime == now
      ensures r.Fail? ==> lastSnapshotTime == old(lastSnapshotTime)
      ensures lastActivity == if r == Pass && keyPressed then now else old(lastActivity)
    {
      if AutosaveDue(now, lastActivity, lastSnapshotTime, idleThreshold, autosaveInterval) {
        var res := TakeSnapshot(true, [], env);
        if res.Failure? {
          return Fail(res.error);
        }
        lastSnapshotTime := now;
      }
      if keyPressed {
        lastActivity := now;
      }
      return Pass;
    }

    /** `restoreSnapshot`: succeeds exactly when the snapshot exists (the
        replay of its files is not part of the source). */
    method RestoreSnapshot(id: string) returns (ok: bool)
      requires Valid()
      ensures ok <==> id in storage.snapshots
    {
      var r := storage.Load(id);
      ok := r.Success?;
    }

    /** `undo`: fails on an empty store, otherwise restores the last snapshot
        of the listing, one with the greatest timestamp. */
    method Undo() returns (ok: bool, target: string)
      requires Valid()
      ensures ok <==> storage.snapshots != map[]
      ensures ok ==> target in storage.snapshots
      ensures ok ==> forall k :: k in storage.snapshots ==> storage.snapshots[k].timestamp <= storage.snapshots[target].timestamp
    {
      var listing := storage.List();
      if listing == [] {
        return false, [];
      }
      target := listing[|listing| - 1].id;
      LastListedIsNewest(storage.snapshots, listing);
      ok := RestoreSnapshot(target);
    }

    /** `listSnapshots`: one line per stored snapshot, in listing order. */
    method ListSnapshots(timeString: int -> string) returns (lines: seq<string>, ghost listing: seq<Snapshot>)
      requires Valid()
      ensures Storage.IsListing(storage.snapshots, listing)
      ensures |lines| == |storage.snapshots|
      ensures forall i :: 0 <= i < |lines| ==> lines[i] == ListLine(listing[i], timeString)
    {
      var snapshots := storage.List();
      listing := snapshots;
      lines := ListLines(snapshots, timeString);
    }

    /** `currentSnapshotId`: the newest snapshot's id, "" when there is none. */
    method CurrentSnapshotId() returns (id: string)
      requires Valid()
      ensures storage.snapshots == map[] ==> id == []
      ensures storage.snapshots != map[] ==>
                id in storage.snapshots &&
                forall k :: k in storage.snapshots ==> storage.snapshots[k].timestamp <= storage.snapshots[id].timestamp
    {
      id := storage.LastSnapshotId();
    }

    /** `createTempBranch`; `done` is false when a temp branch was already
        active and the call was refused. */
    method CreateTempBranch() returns (done: bool)
      modifies this`tempBranchActive
      ensures done <==> !old(tempBranchActive)
      ensures tempBranchActive == BranchStep(old(tempBranchActive), CreateTemp)
    {
      if tempBranchActive {
        return false;
      }
      tempBranchActive := true;
      return true;
    }

    /** `commitTempBranch(name)`; refused when no temp branch is active. */
    method CommitTempBranch(name: string) returns (done: bool)
      modifies this`tempBranchActive
      ensures done <==> old(tempBranchActive)
      ensures tempBranchActive == BranchStep(old(tempBranchActive), CommitTemp)
    {
      if !tempBranchActive {
        return false;
      }
      tempBranchActive := false;
      return true;
    }

    /** `discardTempBranch`; refused when no temp branch is active. */
    method DiscardTempBranch() returns (done: bool)
      modifies this`tempBranchActive
      ensures done <==> old(tempBranchActive)
      ensures tempBranchActive == BranchStep(old(tempBranchActive), DiscardTemp)
    {
      if !tempBranchActive {
        return false;
      }
      tempBranchActive := false;
      return true;
    }
  }

  /** One round of the splitting loop keeps "patterns so far, then the
      patterns of the rest" equal to the final list. */
  lemma AppendStep(pats: seq<string>, all: seq<string>, value: string, start: nat, end: nat)
    requires start <= end && start <= |value| && FindChar(value[start..], ',') == Some(end - start)
    requires pats + SplitPatterns(value[start..]) == all
    ensures end < |value|
    ensures (pats + [Trim(value[start..end])]) + SplitPatterns(value[end + 1..]) == all
  {
    var p := end - start;
    SplitPatternsStep(value[start..], p);
    assert value[start..][..p] == value[start..start + p];
    assert value[start..][p + 1..] == value[start + p + 1..];
  }

  /** The push after the loop completes the list. */
  lemma AppendLast(pats: seq<string>, all: seq<string>, rest: string)
    requires FindChar(rest, ',').None?
    requires pats + SplitPatterns(rest) == all
    ensures pats + [Trim(rest)] == all
  {
    SplitPatternsLast(rest);
  }

  /** The last snapshot of a listing has the greatest timestamp. */
  lemma LastListedIsNewest(t: Storage.SnapshotTable, r: seq<Snapshot>)
    requires Storage.IsListing(t, r) && r != []
    ensures r[|r| - 1].id in t
    ensures forall k :: k in t ==> t[k].timestamp <= t[r[|r| - 1].id].timestamp
  {
    var last := r[|r| - 1];
    forall k | k in t ensures t[k].timestamp <= t[last.id].timestamp {
      var i :| 0 <= i < |r| && r[i].id == k;
      assert r[i].timestamp <= last.timestamp;
    }
  }
}
