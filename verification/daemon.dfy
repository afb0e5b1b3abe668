/** The background server of src/daemon.cpp. Processes, pid files and
    signals are an explicit `Host` value: which pid each pid file names and
    which pids are alive. The socket is the sequence of accept results the
    server sees; a connection carries the bytes its client sent. */
module Daemon {
  import opened Wrappers
  import opened Text
  import opened Engine
  import Command
  import opened Wire

  /** Pid files and live processes, as `kill(pid, 0)` would report them. */
  datatype Host = Host(pidFiles: map<string, int>, alive: set<int>)

  /** `isRunning`'s test, for the pid path it is given: a non-empty path
      naming a pid file whose process is alive. */
  predicate Running(pidPath: string, host: Host) {
    pidPath != [] && pidPath in host.pidFiles && host.pidFiles[pidPath] in host.alive
  }

  function PidPath(workspace: string): string {
    workspace + "/.clay/clay.pid"
  }

  function SockPath(workspace: string): string {
    workspace + "/.clay/clay.sock"
  }

  /** What `std::cerr` receives when `start` finds a server running. */
  const AlreadyRunning := "Daemon is already running\n"

  /** What `std::cerr` receives when `stop` finds no server running. */
  const DaemonNotRunning := "Daemon is not running\n"

  /** What one `accept` returns. */
  datatype Accept = Connection(input: seq<byte>, env: Env) | Interrupted | Failed

  /** An accepted connection: the bytes its client sent and the outside
      world while the server handles it. */
  datatype Incoming = Incoming(input: seq<byte>, env: Env)

  /** The connections the accept loop handles, in order: those before the
      first failed accept; an interrupted accept is retried. */
  function Served(events: seq<Accept>): seq<Incoming>
    decreases |events|
  {
    if events == [] then []
    else match events[0]
      case Failed => []
      case Interrupted => Served(events[1..])
      case Connection(input, env) => [Incoming(input, env)] + Served(events[1..])
  }

  /** What handling one connection does to the engine, from state `s` to
      state `s'`: an incomplete request frame runs nothing and is not
      answered; a complete one runs `execute` on the words of the request
      and is answered with a frame holding its report. */
  ghost predicate Answered(s: EngineState, s': EngineState, input: seq<byte>, env: Env, reply: Option<seq<byte>>) {
    if ReadFrame(input).None? then reply.None? && s' == s
    else exists code, out, err ::
           && Command.Executed(s, s', Tokens(FromBytes(ReadFrame(input).value)), env, code, out, err)
           && reply == Some(Frame(ToBytes(out)))
  }

  /** The engine states the accept loop passes through: `states[k]` is the
      state before the k-th served connection is handled and `states[k + 1]`
      the state after it, so each connection is handled completely, against
      the state the previous one left, before the next is accepted. */
  ghost predicate Trace(s: EngineState, s': EngineState, served: seq<Incoming>,
                        replies: seq<Option<seq<byte>>>, states: seq<EngineState>) {
    && |states| == |served| + 1 && |replies| == |served|
    && states[0] == s && states[|served|] == s'
    && forall k :: 0 <= k < |served| ==> Answered(states[k], states[k + 1], served[k].input, served[k].env, replies[k])
  }

  /** Handling one more connection extends the trace. */
  lemma TraceStep(s: EngineState, s1: EngineState, s2: EngineState, served: seq<Incoming>,
                  replies: seq<Option<seq<byte>>>, states: seq<EngineState>, c: Incoming, reply: Option<seq<byte>>)
    requires Trace(s, s1, served, replies, states)
    requires Answered(s1, s2, c.input, c.env, reply)
    ensures Trace(s, s2, served + [c], replies + [reply], states + [s2])
  {
    var states', served', replies' := states + [s2], served + [c], replies + [reply];
    forall k | 0 <= k < |served|
      ensures Answered(states'[k], states'[k + 1], served'[k].input, served'[k].env, replies'[k])
    {
      assert states'[k] == states[k] && states'[k + 1] == states[k + 1];
      assert served'[k] == served[k] && replies'[k] == replies[k];
    }
    var n := |served|;
    assert states'[n] == s1 && states'[n + 1] == s2 && served'[n] == c && replies'[n] == reply;
  }

  /** A loop whose every request frame comes up short leaves the engine as
      it found it. */
  lemma {:induction false} UnansweredKeepsState(s: EngineState, s': EngineState, served: seq<Incoming>,
                                               replies: seq<Option<seq<byte>>>, states: seq<EngineState>)
    requires Trace(s, s', served, replies, states)
    requires forall k :: 0 <= k < |served| ==> ReadFrame(served[k].input).None?
    ensures s' == s && forall k :: 0 <= k < |replies| ==> replies[k].None?
  {
    var k := 0;
    while k < |served|
      invariant 0 <= k <= |served|
      invariant states[k] == s
      invariant forall j :: 0 <= j < k ==> replies[j].None?
    {
      assert Answered(states[k], states[k + 1], served[k].input, served[k].env, replies[k]);
      k := k + 1;
    }
  }

  /** Nothing after a failed accept is served. */
  lemma {:induction false} ServedStopsAtFailure(events: seq<Accept>, more: seq<Accept>)
    requires exists i :: 0 <= i < |events| && events[i] == Failed
    ensures Served(events + more) == Served(events)
    decreases |events|
  {
    var i :| 0 <= i < |events| && events[i] == Failed;
    assert (events + more)[0] == events[0];
    if events[0] != Failed {
      assert (events + more)[1..] == events[1..] + more;
      assert events[1..][i - 1] == Failed;
      ServedStopsAtFailure(events[1..], more);
    }
  }

  /** An interrupted accept changes nothing: the loop simply accepts
      again. */
  lemma {:induction false} ServedSkipsInterrupt(before: seq<Accept>, after: seq<Accept>)
    ensures Served(before + [Interrupted] + after) == Served(before + after)
    decreases |before|
  {
    if before == [] {
      assert (before + [Interrupted] + after)[1..] == after;
      assert before + after == after;
    } else {
      assert (before + [Interrupted] + after)[1..] == before[1..] + [Interrupted] + after;
      assert (before + after)[1..] == before[1..] + after;
      ServedSkipsInterrupt(before[1..], after);
    }
  }

  /** `Daemon`: the pid and socket paths, empty until the server process
      sets them, and the loop flag. */
  class Daemon {
    var pidPath: string
    var sockPath: string
    var running: bool

    constructor ()
      ensures pidPath == [] && sockPath == [] && !running
    {
      pidPath := [];
      sockPath := [];
      running := false;
    }

    /** `isRunning`: false whenever no pid path is set. */
    function IsRunning(host: Host): (r: bool)
      reads this
      ensures pidPath == [] ==> !r
      ensures r <==> Running(pidPath, host)
    {
      Running(pidPath, host)
    }

    /** The calling side of `start`: refused when a server runs already,
        otherwise the result of `fork` (the server itself is `Serve`). A
        refusal says why on the error stream; `reason` is the `strerror`
        text of a failed `fork`. */
    method Start(workspace: string, host: Host, forkOk: bool, reason: string) returns (ok: bool, err: string)
      ensures IsRunning(host) ==> !ok && err == AlreadyRunning
      ensures ok <==> !IsRunning(host) && forkOk
      ensures !IsRunning(host) && !forkOk ==> err == Perror("fork", reason)
      ensures ok <==> err == []
    {
      if IsRunning(host) {
        return false, AlreadyRunning;
      }
      if !forkOk {
        return false, Perror("fork", reason);
      }
      ok, err := true, [];
    }

    /** `stop`: refused when no server runs; otherwise signal it and report
        whether it is gone a second later (`later`). A refusal or a failed
        `kill` says so on the error stream; a server still alive a second
        later is reported by the result alone. */
    method Stop(host: Host, killOk: bool, later: Host, reason: string) returns (ok: bool, err: string)
      ensures !IsRunning(host) ==> !ok && err == DaemonNotRunning
      ensures ok <==> IsRunning(host) && killOk && !IsRunning(later)
      ensures IsRunning(host) && !killOk ==> err == Perror("kill", reason)
      ensures IsRunning(host) && killOk ==> err == []
    {
      if !IsRunning(host) {
        return false, DaemonNotRunning;
      }
      if !killOk {
        return false, Perror("kill", reason);
      }
      ok, err := !IsRunning(later), [];
    }

    /** The server process after `fork`: record the paths, bring up the
        engine (leaving when it does not come up) and run the accept
        loop, which starts from the engine as `init` left it. */
    method Serve(workspace: string, core: Core, events: seq<Accept>, env: Env)
      returns (started: bool, served: seq<Incoming>, replies: seq<Option<seq<byte>>>, ghost states: seq<EngineState>)
      requires core.Valid()
      modifies this, core, core.storage
      ensures pidPath == PidPath(workspace) && sockPath == SockPath(workspace)
      ensures started <==> (env.storageOpens &&
                            Config.ApplyLines(old(core.CurrentSettings()), Config.SplitLines(ConfigText(env))).outcome == Pass)
      ensures !started ==> served == [] && replies == []
      ensures started ==> running && served == Served(events)
      ensures |replies| == |served|
      ensures forall k :: 0 <= k < |served| ==> (replies[k].None? <==> ReadFrame(served[k].input).None?)
      ensures started ==>
                Trace(old(core.State()).(initialized := true,
                                         settings := Config.ApplyLines(old(core.CurrentSettings()), Config.SplitLines(ConfigText(env))).settings,
                                         snapshots := env.database.snapshots, deltas := env.database.deltas),
                      core.State(), served, replies, states)
    {
      pidPath := PidPath(workspace);
      sockPath := SockPath(workspace);
      var r := core.Init(env);
      if r != Success(true) {
        return false, [], [], [core.State()];
      }
      running := true;
      served, replies, states := MainLoop(core, events);
      started := true;
    }

    /** `mainLoop`: serve connections one at a time, retry an interrupted
        accept and stop at any other accept error. */
    method MainLoop(core: Core, events: seq<Accept>)
      returns (served: seq<Incoming>, replies: seq<Option<seq<byte>>>, ghost states: seq<EngineState>)
      requires core.Valid()
      modifies core, core.storage
      ensures core.Valid()
      ensures served == Served(events)
      ensures |replies| == |served|
      ensures forall k :: 0 <= k < |served| ==> (replies[k].None? <==> ReadFrame(served[k].input).None?)
      ensures Trace(old(core.State()), core.State(), served, replies, states)
    {
      served, replies, states := [], [], [core.State()];
      var i := 0;
      while i < |events|
        invariant 0 <= i <= |events|
        invariant core.Valid()
        invariant served + Served(events[i..]) == Served(events)
        invariant |replies| == |served|
        invariant forall k :: 0 <= k < |served| ==> (replies[k].None? <==> ReadFrame(served[k].input).None?)
        invariant Trace(old(core.State()), core.State(), served, replies, states)
      {
        assert events[i..][1..] == events[i + 1..];
        match events[i]
        case Interrupted =>
          i := i + 1;
        case Failed =>
          assert Served(events[i..]) == [];
          assert served == Served(events);
          return;
        case Connection(input, env) =>
          var reply := Handle(core, Incoming(input, env), old(core.State()), served, replies, states);
          served := served + [Incoming(input, env)];
          replies := replies + [reply];
          states := states + [core.State()];
          i := i + 1;
      }
      assert events[i..] == [];
    }

    /** One round of the loop: answer connection `c` and extend the trace
        of the connections before it. */
    method Handle(core: Core, c: Incoming, ghost s: EngineState, ghost served: seq<Incoming>,
                  ghost replies: seq<Option<seq<byte>>>, ghost states: seq<EngineState>)
      returns (reply: Option<seq<byte>>)
      requires core.Valid()
      requires Trace(s, core.State(), served, replies, states)
      modifies core, core.storage
      ensures core.Valid()
      ensures reply.None? <==> ReadFrame(c.input).None?
      ensures Trace(s, core.State(), served + [c], replies + [reply], states + [core.State()])
    {
      ghost var before := core.State();
      reply := Answer(core, c.input, c.env);
      TraceStep(s, before, core.State(), served, replies, states, c, reply);
    }

    /** One connection as the loop sees it: `handleClient` with its report
        and exit code kept inside. */
    method Answer(core: Core, input: seq<byte>, env: Env) returns (reply: Option<seq<byte>>)
      requires core.Valid()
      modifies core, core.storage
      ensures core.Valid()
      ensures reply.None? <==> ReadFrame(input).None?
      ensures Answered(old(core.State()), core.State(), input, env, reply)
    {
      var r, args, code, out, err := HandleClient(core, input, env);
      reply := r;
    }

    /** `handleClient`: read a request frame, split it into words, run the
        command and answer with a frame holding the command's report.
        Nothing runs and nothing is answered when a read comes up short.
        The exit code and the error text are not sent. */
    method HandleClient(core: Core, input: seq<byte>, env: Env)
      returns (reply: Option<seq<byte>>, ghost args: seq<string>, ghost code: int, ghost out: string, ghost err: string)
      requires core.Valid()
      modifies core, core.storage
      ensures core.Valid()
      ensures ReadFrame(input).None? ==> reply.None? && unchanged(core) && unchanged(core.storage)
      ensures ReadFrame(input).Some? ==>
                && args == Tokens(FromBytes(ReadFrame(input).value))
                && Command.Executed(old(core.State()), core.State(), args, env, code, out, err)
                && reply == Some(Frame(ToBytes(out)))
    {
      var request := ReadFrame(input);
      if request.None? {
        return None, [], 0, [], [];
      }
      var words := Tokenize(FromBytes(request.value));
      args := words;
      var c, report, e := Command.Execute(core, words, env);
      code, out, err := c, report, e;
      reply := Some(Frame(ToBytes(report)));
    }
  }

  // ---- the pid path of the client's instance

  /** `clay init` as written: the client asks a `Daemon` object it has
      just constructed, whose empty pid path never names a running server,
      so the request is never refused and the outcome is that of `fork`;
      only a failed `fork` complains. */
  method ClientStart(workspace: string, host: Host, forkOk: bool, reason: string) returns (ok: bool, err: string)
    ensures ok == forkOk
    ensures err == if forkOk then [] else Perror("fork", reason)
  {
    var d := new Daemon();
    ok, err := d.Start(workspace, host, forkOk, reason);
  }

  /** `clay stop` as written: the client asks a `Daemon` object it has just
      constructed, whose pid path only the server process would have set,
      so the request is refused whatever runs, with the complaint that no
      server is running. */
  method ClientStop(host: Host, killOk: bool, later: Host, reason: string) returns (ok: bool, err: string)
    ensures !ok && err == DaemonNotRunning
  {
    var d := new Daemon();
    ok, err := d.Stop(host, killOk, later, reason);
  }

  /** `clay status` as written: the same fresh object always reports the
      server as stopped. */
  method ClientStatus(host: Host) returns (running: bool)
    ensures !running
  {
    var d := new Daemon();
    running := d.IsRunning(host);
  }

  /** A server that runs for the workspace "." goes unseen by the client as
      written, although its pid file names a live process. */
  lemma ClientMissesLiveServer()
    ensures var host := Host(map[PidPath(".") := 42], {42});
            Running(PidPath("."), host) && !Running([], host)
  {
  }

  /** The corrected client side: the client's object takes the paths of the
      workspace, as the server records them, before it is asked. */
  method ForWorkspace(workspace: string) returns (d: Daemon)
    ensures fresh(d) && d.pidPath == PidPath(workspace) && d.sockPath == SockPath(workspace) && !d.running
  {
    d := new Daemon();
    d.pidPath := PidPath(workspace);
    d.sockPath := SockPath(workspace);
  }

  /** Corrected `clay init`: refused when a server of that workspace runs. */
  method ClientStartIn(workspace: string, host: Host, forkOk: bool, reason: string) returns (ok: bool, err: string)
    ensures Running(PidPath(workspace), host) ==> !ok && err == AlreadyRunning
    ensures ok <==> !Running(PidPath(workspace), host) && forkOk
    ensures !Running(PidPath(workspace), host) && !forkOk ==> err == Perror("fork", reason)
    ensures ok <==> err == []
  {
    var d := ForWorkspace(workspace);
    ok, err := d.Start(workspace, host, forkOk, reason);
  }

  /** Corrected `clay stop`: refused exactly when no server of the
      workspace runs, or when the signal cannot be sent or does not end
      it. */
  method ClientStopIn(workspace: string, host: Host, killOk: bool, later: Host, reason: string) returns (ok: bool, err: string)
    ensures !Running(PidPath(workspace), host) ==> !ok && err == DaemonNotRunning
    ensures ok <==> Running(PidPath(workspace), host) && killOk && !Running(PidPath(workspace), later)
    ensures Running(PidPath(workspace), host) && !killOk ==> err == Perror("kill", reason)
    ensures Running(PidPath(workspace), host) && killOk ==> err == []
  {
    var d := ForWorkspace(workspace);
    ok, err := d.Stop(host, killOk, later, reason);
  }

  /** Corrected status query: a live server of the workspace is reported as
      running. */
  method ClientStatusIn(workspace: string, host: Host) returns (running: bool)
    ensures running <==> PidPath(workspace) in host.pidFiles && host.pidFiles[PidPath(workspace)] in host.alive
  {
    var d := ForWorkspace(workspace);
    running := d.IsRunning(host);
    assert |PidPath(workspace)| > 0;
  }
}
