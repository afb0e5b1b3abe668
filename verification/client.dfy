/** The `clay` command-line client of src/main.cpp: it runs `init`, `stop`
    and a bare `status` itself and forwards every other command to the
    server over the control socket. The file system is the set of paths
    that exist; the server's answer is the bytes read back. */
module Client {
  import opened Wrappers
  import opened Text
  import opened Wire
  import Daemon
  import Command
  import Config

  /** The socket path relative to a workspace. */
  const SocketName := ".clay/clay.sock"

  /** The number of parent directories searched. */
  const ParentSearch := 5

  const NotRunning := "Clay daemon is not running. Use 'clay init' to start.\n"

  function Ups(k: nat): string {
    if k == 0 then [] else "../" + Ups(k - 1)
  }

  /** The `k`-th place the socket is looked for: `k` levels up. */
  function Candidate(k: nat): string {
    Ups(k) + SocketName
  }

  /** The socket search of `sendCommandToDaemon`: the workspace itself, then
      up to five parents, nearest first; the first path that exists wins. */
  method FindSocket(existing: set<string>) returns (r: Option<string>)
    ensures r.None? <==> forall k :: 0 <= k <= ParentSearch ==> Candidate(k) !in existing
    ensures r.Some? ==> exists k :: 0 <= k <= ParentSearch && r.value == Candidate(k) && r.value in existing &&
                                    forall j :: 0 <= j < k ==> Candidate(j) !in existing
  {
    var path := SocketName;
    assert path == Candidate(0);
    if path in existing {
      return Some(path);
    }
    var i := 0;
    while i < ParentSearch
      invariant 0 <= i <= ParentSearch
      invariant path == Candidate(i) && path !in existing
      invariant forall j :: 0 <= j <= i ==> Candidate(j) !in existing
    {
      path := "../" + path;
      i := i + 1;
      assert path == Candidate(i);
      if path in existing {
        break;
      }
    }
    if path !in existing {
      return None;
    }
    return Some(path);
  }

  /** The `ostringstream` loop: each argument followed by one space. */
  method BuildRequest(args: seq<string>) returns (command: string)
    ensures command == RequestText(args)
  {
    command := [];
    var i := 0;
    while i < |args|
      invariant 0 <= i <= |args|
      invariant command == RequestText(args[..i])
    {
      RequestTextSnoc(args[..i], args[i]);
      assert args[..i + 1] == args[..i] + [args[i]];
      command := command + args[i] + " ";
      i := i + 1;
    }
    assert args[..i] == args;
  }

  lemma {:induction false} RequestTextSnoc(args: seq<string>, arg: string)
    ensures RequestText(args + [arg]) == RequestText(args) + arg + " "
    decreases |args|
  {
    if args == [] {
      assert [] + [arg] == [arg];
      assert RequestText([arg]) == arg + " " + RequestText([]);
    } else {
      assert (args + [arg])[1..] == args[1..] + [arg];
      RequestTextSnoc(args[1..], arg);
    }
  }

  /** The bytes the client writes: a frame around the request text. */
  function Request(args: seq<string>): seq<byte> {
    Frame(ToBytes(RequestText(args)))
  }

  /** The server gets back exactly the arguments the client was given, when
      they are non-empty words of bytes without whitespace and the request
      fits a 32-bit length. */
  lemma RequestRoundTrip(args: seq<string>)
    requires forall i :: 0 <= i < |args| ==> args[i] != [] && NoSpace(args[i]) && IsByteString(args[i])
    requires TotalLength(args) + |args| < LengthLimit
    ensures ReadFrame(Request(args)).Some?
    ensures Tokens(FromBytes(ReadFrame(Request(args)).value)) == args
  {
    var text := RequestText(args);
    RequestLength(args);
    RequestBytes(args);
    RequestFrame(text);
    assert Request(args) == Frame(ToBytes(text));
    assert ReadFrame(Request(args)).value == ToBytes(text);
    TokensOfRequest(args);
  }

  /** The frame of a byte string is read back as that string. */
  lemma RequestFrame(text: string)
    requires IsByteString(text) && |text| < LengthLimit
    ensures ReadFrame(Frame(ToBytes(text))) == Some(ToBytes(text))
    ensures FromBytes(ToBytes(text)) == text
  {
    FrameRoundTrip(ToBytes(text), []);
    assert Frame(ToBytes(text)) + [] == Frame(ToBytes(text));
    TextRoundTrip(text);
  }

  lemma {:induction false} RequestBytes(args: seq<string>)
    requires forall i :: 0 <= i < |args| ==> IsByteString(args[i])
    ensures IsByteString(RequestText(args))
    decreases |args|
  {
    if args != [] {
      RequestBytes(args[1..]);
      var t := RequestText(args);
      assert t == args[0] + (" " + RequestText(args[1..]));
      forall i | 0 <= i < |t| ensures t[i] as int < 256 {
        if i >= |args[0]| + 1 {
          assert t[i] == RequestText(args[1..])[i - |args[0]| - 1];
        } else if i < |args[0]| {
          assert t[i] == args[0][i];
        }
      }
    }
  }

  /** The reply check: the output is printed and 0 returned only when the
      4-byte length and exactly that many bytes were read; otherwise 1. */
  function ReadReply(response: seq<byte>): (r: (int, string))
    ensures r.0 == 0 <==> ReadFrame(response).Some?
    ensures r.0 == 0 ==> ToBytes(r.1) == ReadFrame(response).value
    ensures r.0 != 0 ==> r.0 == 1 && r.1 == []
  {
    match ReadFrame(response)
    case None => (1, [])
    case Some(payload) =>
      BytesRoundTrip(payload);
      (0, FromBytes(payload))
  }

  /** What the client writes to `std::cerr` about the reply: `perror`'s
      line when the 4-byte length does not arrive (`reason` is the text of
      `strerror(errno)`), the count of bytes against the announced length
      when the payload comes up short, and nothing for a complete frame. */
  function ReplyComplaint(response: seq<byte>, reason: string): (e: string)
    ensures e == [] <==> ReadFrame(response).Some?
    ensures |response| < 4 ==> e == Perror("read result_len", reason)
    ensures |response| >= 4 && ReadFrame(response).None? ==>
              e == "Incomplete result: " + Config.ToDecimal(|response| - 4) + "/" +
                   Config.ToDecimal(DecodeLength(response[..4])) + "\n"
  {
    if |response| < 4 then Perror("read result_len", reason)
    else
      var n := DecodeLength(response[..4]);
      if |response| - 4 < n then
        "Incomplete result: " + Config.ToDecimal(|response| - 4) + "/" + Config.ToDecimal(n) + "\n"
      else []
  }

  /** `sendCommandToDaemon`: find the socket, send the request frame and
      print the reply. Connecting and writing are taken to succeed;
      `response` is what the server sends back and `reason` the text
      `perror` adds when the length cannot be read. */
  method SendCommand(args: seq<string>, existing: set<string>, response: seq<byte>, reason: string)
    returns (code: int, out: string, err: string, sent: seq<byte>)
    ensures (forall k :: 0 <= k <= ParentSearch ==> Candidate(k) !in existing) ==>
              code == 1 && err == NotRunning && sent == []
    ensures (exists k :: 0 <= k <= ParentSearch && Candidate(k) in existing) ==>
              && sent == Request(args) && (code, out) == ReadReply(response)
              && err == ReplyComplaint(response, reason)
              && (err == [] <==> code == 0)
  {
    var sock := FindSocket(existing);
    if sock.None? {
      return 1, [], NotRunning, [];
    }
    var command := BuildRequest(args);
    sent := Frame(ToBytes(command));
    code, out := ReadReply(response).0, ReadReply(response).1;
    err := ReplyComplaint(response, reason);
  }

  /** How `main` handles a command line. */
  datatype Route = ShowHelp | StartServer(workspace: string) | StopServer | ShowStatus | Forward

  /** `main`'s routing: no argument shows the help; `init` (with "." as the
      default workspace) and `stop` are handled locally, and so is `status`
      when it comes alone; everything else goes to the server. */
  function RouteOf(args: seq<string>): (r: Route)
    ensures r == ShowHelp <==> args == []
    ensures r.StartServer? <==> args != [] && args[0] == "init"
    ensures r.StartServer? ==> r.workspace == if |args| >= 2 then args[1] else "."
    ensures r == StopServer <==> args != [] && args[0] == "stop"
    ensures r == ShowStatus <==> args == ["status"]
    ensures r == Forward <==> args != [] && args[0] != "init" && args[0] != "stop" && args != ["status"]
  {
    if args == [] then ShowHelp
    else if args[0] == "init" then StartServer(if |args| < 2 then "." else args[1])
    else if args[0] == "stop" then StopServer
    else if args[0] == "status" && |args| == 1 then ShowStatus
    else Forward
  }

  /** `status` with anything after it is not the local status query: it
      is forwarded, and the server reports its current snapshot. */
  lemma StatusWithArgumentsForwarded(extra: string)
    ensures RouteOf(["status", extra]) == Forward
  {
    assert ["status", extra] != ["status"];
  }

  /** The workspace a client command refers to: the one it runs in. */
  const Here := "."

  /** `main` as a whole, with the outside world as inputs: `host` before
      and `later` after a stop signal, whether `fork` and `kill` succeed,
      the paths that exist, the server's reply and the `strerror` text of
      whichever call fails (at most one does on any route). The local commands use the server's pid file of the
      workspace (see `Daemon.ClientStart`, `Daemon.ClientStop` and
      `Daemon.ClientStatus` for the client as written, which never finds
      it). */
  method Run(args: seq<string>, host: Daemon.Host, forkOk: bool, killOk: bool, later: Daemon.Host,
             existing: set<string>, response: seq<byte>, reason: string)
    returns (code: int, out: string, err: string, sent: seq<byte>)
    ensures args == [] ==> code == 1 && out == Command.HelpText && sent == []
    ensures RouteOf(args).StartServer? ==>
              sent == [] &&
              (code == 0 <==> !Daemon.Running(Daemon.PidPath(RouteOf(args).workspace), host) && forkOk) &&
              (code == 0 ==> out == "Clay daemon started in " + RouteOf(args).workspace + "\n") &&
              (code != 0 ==> code == 1 && out == []) &&
              err == (if Daemon.Running(Daemon.PidPath(RouteOf(args).workspace), host) then Daemon.AlreadyRunning
                      else if forkOk then [] else Perror("fork", reason))
    ensures RouteOf(args) == StopServer ==>
              sent == [] &&
              (code == 0 <==> Daemon.Running(Daemon.PidPath(Here), host) && killOk && !Daemon.Running(Daemon.PidPath(Here), later)) &&
              (code == 0 ==> out == "Clay daemon stopped\n") &&
              (code != 0 ==> code == 1 && out == []) &&
              err == (if !Daemon.Running(Daemon.PidPath(Here), host) then Daemon.DaemonNotRunning
                      else if killOk then [] else Perror("kill", reason))
    ensures RouteOf(args) == ShowStatus ==>
              code == 0 && sent == [] && err == [] &&
              out == "Clay daemon: " + (if Daemon.Running(Daemon.PidPath(Here), host) then "running" else "stopped") + "\n"
    ensures args == [] ==> err == []
    ensures RouteOf(args) == Forward ==>
              (forall k :: 0 <= k <= ParentSearch ==> Candidate(k) !in existing) ==>
                code == 1 && sent == [] && err == NotRunning
    ensures RouteOf(args) == Forward ==>
              (exists k :: 0 <= k <= ParentSearch && Candidate(k) in existing) ==>
                sent == Request(args) && (code, out) == ReadReply(response) &&
                err == ReplyComplaint(response, reason)
  {
    match RouteOf(args)
    case ShowHelp =>
      return 1, Command.HelpText, [], [];
    case StartServer(workspace) =>
      var ok, complaint := Daemon.ClientStartIn(workspace, host, forkOk, reason);
      if !ok {
        return 1, [], complaint, [];
      }
      return 0, "Clay daemon started in " + workspace + "\n", [], [];
    case StopServer =>
      var ok, complaint := Daemon.ClientStopIn(Here, host, killOk, later, reason);
      if ok {
        return 0, "Clay daemon stopped\n", [], [];
      }
      return 1, [], complaint, [];
    case ShowStatus =>
      var running := Daemon.ClientStatusIn(Here, host);
      return 0, "Clay daemon: " + (if running then "running" else "stopped") + "\n", [], [];
    case Forward =>
      code, out, err, sent := SendCommand(args, existing, response, reason);
  }
}
