/**
 * The decisions the `palworldcli` binary makes before it talks to a server:
 * the log level from `--debug_level`, the defaults for host, ports and SSH
 * user, which memory report `--memory` / `--memory_ssh` select, and the
 * shutdown command it sends. Argument parsing, logging, printing and JSON
 * output are not modelled.
 */
module Cli {
  import opened Wrappers
  import opened Ints
  import opened Text
  import ServerRcon
  import MemInfoDecoder

  // ---------------------------------------------------------------------
  // initialize_log: the level filter
  // ---------------------------------------------------------------------

  datatype LevelFilter = Off | Error | Warn | Info | Debug | Trace

  /** `to_lowercase` on one character, for the ASCII letters. */
  function LowerChar(c: char): char {
    if 'A' <= c <= 'Z' then (c as int - 'A' as int + 'a' as int) as char else c
  }

  /** `to_lowercase` of a string, character by character. */
  function Lower(s: string): (r: string)
    ensures |r| == |s| && forall k :: 0 <= k < |s| ==> r[k] == LowerChar(s[k])
    ensures forall k :: 0 <= k < |s| ==> !('A' <= r[k] <= 'Z')
  {
    seq(|s|, k requires 0 <= k < |s| => LowerChar(s[k]))
  }

  /** The guards of the level match, in the order they are tried. */
  const LEVEL_KEYWORDS: seq<string> := ["trace", "debug", "info", "warn", "error"]
  const GUARDED_LEVELS: seq<LevelFilter> := [Trace, Debug, Info, Warn, Error]

  /** The match on the lowercased argument: the first guard whose keyword it contains. */
  function Classify(x: string): (level: LevelFilter)
    ensures forall i :: 0 <= i < 5 ==>
      (level == GUARDED_LEVELS[i] <==> Contains(x, LEVEL_KEYWORDS[i]) && forall j :: 0 <= j < i ==> !Contains(x, LEVEL_KEYWORDS[j]))
    ensures level == Off <==> forall i :: 0 <= i < 5 ==> !Contains(x, LEVEL_KEYWORDS[i])
  {
    assert LEVEL_KEYWORDS[0] == "trace" && LEVEL_KEYWORDS[1] == "debug" && LEVEL_KEYWORDS[2] == "info";
    assert LEVEL_KEYWORDS[3] == "warn" && LEVEL_KEYWORDS[4] == "error";
    assert GUARDED_LEVELS == [Trace, Debug, Info, Warn, Error];
    if Contains(x, "trace") then Trace
    else if Contains(x, "debug") then Debug
    else if Contains(x, "info") then Info
    else if Contains(x, "warn") then Warn
    else if Contains(x, "error") then Error
    else Off
  }

  /** `initialize_log`'s choice of level: off without an argument, otherwise the
      classification of the lowercased argument. */
  function LevelFromArg(arg: Option<string>): (level: LevelFilter)
    ensures arg.None? ==> level == Off
    ensures arg.Some? ==> level == Classify(Lower(arg.value))
  {
    match arg
    case None => Off
    case Some(ll) => Classify(Lower(ll))
  }

  /** Lowercasing twice is lowercasing once. */
  lemma LowerIdempotent(s: string)
    ensures Lower(Lower(s)) == Lower(s)
  {
  }

  /** The argument's case does not matter: an argument and its lowercase give the same level. */
  lemma LevelIgnoresCase(s: string)
    ensures LevelFromArg(Some(s)) == LevelFromArg(Some(Lower(s)))
  {
    LowerIdempotent(s);
  }

  /** The first keyword wins: an argument with `debug` and no `trace` is `Debug`,
      whatever else (such as `error`) it contains. */
  lemma DebugBeforeLaterKeywords(x: string)
    requires Contains(x, "debug") && !Contains(x, "trace")
    ensures Classify(x) == Debug
  {
    assert GUARDED_LEVELS[1] == Debug;
  }

  /** `-d DEBUG` selects `Debug`. */
  lemma UppercaseDebug()
    ensures LevelFromArg(Some("DEBUG")) == Debug
  {
    assert Lower("DEBUG") == "debug";
    assert OccursAt("debug", "debug", 0);
    MissingFirstCharNotContained("debug", "trace");
    DebugBeforeLaterKeywords("debug");
  }

  /** `-d debug-error` selects `Debug`: the earlier guard wins. */
  lemma DebugErrorIsDebug()
    ensures LevelFromArg(Some("debug-error")) == Debug
  {
    assert Lower("debug-error") == "debug-error";
    assert OccursAt("debug-error", "debug", 0);
    MissingFirstCharNotContained("debug-error", "trace");
    DebugBeforeLaterKeywords("debug-error");
  }

  // ---------------------------------------------------------------------
  // Argument defaults
  // ---------------------------------------------------------------------

  const DEFAULT_HOST := "localhost"
  const SSH_DEFAULT_PORT: u16 := 22
  const DEFAULT_SSH_USERNAME := "root"

  /** The arguments the modelled decisions read. */
  datatype Args = Args(
    logLevel: Option<string>,
    serverIp: Option<string>,
    serverPort: Option<u16>,
    password: string,
    shutdown: Option<u64>,
    memory: bool,
    memorySsh: bool,
    username: Option<string>)

  /** The RCON endpoint: host `localhost` and the Source RCON port unless given. */
  function RconServer(args: Args): (server: ServerRcon.PalworldRcon)
    ensures server.host == if args.serverIp.Some? then args.serverIp.value else DEFAULT_HOST
    ensures server.port == if args.serverPort.Some? then args.serverPort.value else ServerRcon.DEFAULT_SOURCE_PORT
    ensures server.password == args.password
  {
    ServerRcon.New(args.serverIp.UnwrapOr(DEFAULT_HOST), args.serverPort.UnwrapOr(ServerRcon.DEFAULT_SOURCE_PORT), args.password)
  }

  /** Which memory report is produced, if any. */
  datatype MemorySource = NoMemory | LocalMemory | SshMemory(connection: MemInfoDecoder.PalworldConnection)

  /** The SSH login for `--memory_ssh`: the same host and `:` and the port in
      decimal without a leading zero, 22 unless given; user `root` unless given,
      and the same password. */
  function SshConnection(args: Args): (c: MemInfoDecoder.PalworldConnection)
    ensures var host := args.serverIp.UnwrapOr(DEFAULT_HOST);
      var port := args.serverPort.UnwrapOr(SSH_DEFAULT_PORT);
      && |c.hostname| > |host| + 1
      && c.hostname[..|host|] == host && c.hostname[|host|] == ':'
      && AllDigits(c.hostname[|host| + 1..]) && DigitsValue(c.hostname[|host| + 1..]) == port
      && (c.hostname[|host| + 1] == '0' ==> |c.hostname| == |host| + 2)
    ensures c.username == if args.username.Some? then args.username.value else DEFAULT_SSH_USERNAME
    ensures c.password == args.password
  {
    var host := args.serverIp.UnwrapOr(DEFAULT_HOST);
    var port := DecimalString(args.serverPort.UnwrapOr(SSH_DEFAULT_PORT));
    var hostname := host + ":" + port;
    assert hostname[|host| + 1..] == port;
    assert hostname[..|host|] == host;
    MemInfoDecoder.New(hostname, args.username.UnwrapOr(DEFAULT_SSH_USERNAME), args.password)
  }

  /** `--memory` wins; `--memory_ssh` is acted on only without it. */
  function MemorySourceOf(args: Args): (source: MemorySource)
    ensures source == LocalMemory <==> args.memory
    ensures source.SshMemory? <==> !args.memory && args.memorySsh
    ensures source == NoMemory <==> !args.memory && !args.memorySsh
    ensures source.SshMemory? ==> source.connection == SshConnection(args)
  {
    if args.memory then LocalMemory
    else if args.memorySsh then SshMemory(SshConnection(args))
    else NoMemory
  }

  /** `--shutdown <delay>`: the delay in whole seconds and an empty message. */
  function ShutdownCommandOf(args: Args): (cmd: Option<string>)
    ensures cmd.Some? <==> args.shutdown.Some?
    ensures cmd.Some? ==> cmd.value == ServerRcon.ShutdownCommand(Some(ServerRcon.Duration(args.shutdown.value, 0)), "")
  {
    match args.shutdown
    case None => None
    case Some(delay) => Some(ServerRcon.ShutdownCommand(Some(ServerRcon.Duration(delay, 0)), ""))
  }

  /** The command-line shutdown always ends in the separator of an empty message,
      after the delay's digits written without a leading zero. */
  lemma ShutdownFromCli(args: Args)
    requires args.shutdown.Some?
    ensures var cmd := ShutdownCommandOf(args).value;
      && |cmd| >= 11 && cmd[..9] == "shutdown " && cmd[|cmd| - 1] == ' '
      && AllDigits(cmd[9..|cmd| - 1]) && DigitsValue(cmd[9..|cmd| - 1]) == args.shutdown.value
      && (cmd[9] == '0' ==> |cmd| == 11)
  {
  }
}
