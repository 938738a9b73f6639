/**
 * The rsync invocation a syncer runs: the program name and its ordered
 * argument vector, built from the flags, the optional remote shell, the
 * options, the source and the (possibly remote) destination.
 */
module Rsync {
  import opened Wrappers
  import opened Strings
  import opened RsyncCli
  import Ssh

  datatype Cmd = Cmd(program: string, args: seq<string>)

  /** The `user@host` part: the present ones of user and host, joined with `@`. */
  function HostSpec(host: Option<string>, user: Option<string>): string {
    JoinWith(Present([user, host]), "@")
  }

  function Present(parts: seq<Option<string>>): (r: seq<string>)
    ensures |r| <= |parts|
    decreases |parts|
  {
    if parts == [] then []
    else (match parts[0] case Some(x) => [x] case None => []) + Present(parts[1..])
  }

  /**
   * The destination argument: `dst` alone when the joined `user@host` text
   * is empty (an empty user alone joins to empty text too), otherwise that
   * text, a colon and `dst`.
   */
  function Destination(dst: string, host: Option<string>, user: Option<string>): (r: string)
    ensures user.None? && (host.None? || host.value == "") ==> r == dst
    ensures user.None? && host.Some? && host.value != "" ==> r == host.value + ":" + dst
    ensures user.Some? && host.None? && user.value != "" ==> r == user.value + ":" + dst
    ensures user.Some? && host.Some? ==> r == user.value + "@" + host.value + ":" + dst
    ensures user.Some? && user.value == "" && host.None? ==> r == dst
  {
    var spec := HostSpec(host, user);
    assert user.Some? && host.Some? ==> Present([user, host]) == [user.value, host.value];
    assert user.Some? && host.Some? ==> spec == user.value + "@" + host.value by {
      if user.Some? && host.Some? {
        JoinSnoc([user.value], "@", host.value);
      }
    }
    if spec == "" then dst else spec + ":" + dst
  }

  /** The string rsync's `-e` takes for the remote shell, when one is given. */
  function ShellString(shell: Option<Ssh.SSHShell>): Option<string> {
    match shell
    case Some(sh) => Some(Ssh.AsArg(sh))
    case None => None
  }

  /**
   * The rsync command: flags, then the shell, then the options, then the
   * source, and the destination last.
   */
  function Command(src: string, dst: string, host: Option<string>, user: Option<string>,
                   shell: Option<Ssh.SSHShell>, flags: seq<RsyncFlag>, options: seq<RsyncOption>): (c: Cmd)
    ensures c.program == "rsync"
    ensures |c.args| == |flags| + (if shell.Some? then 2 else 0) + 2 * |options| + 2
    ensures c.args[|c.args| - 2] == src
    ensures c.args[|c.args| - 1] == Destination(dst, host, user)
  {
    Cmd("rsync", FlagArgs(flags) + ShellPair(ShellString(shell)) + OptionArgs(options) + [src, Destination(dst, host, user)])
  }

  /** What an rsync argument vector of this shape is made of. */
  datatype Invocation = Invocation(flags: seq<RsyncFlag>, shell: Option<string>, options: seq<RsyncOption>,
                                   src: string, dst: string)

  /** The longest run of flag arguments at the front. */
  function LeadingFlags(args: seq<string>): (r: seq<RsyncFlag>)
    ensures |r| <= |args|
    decreases |args|
  {
    if args != [] && ParseCliArg(args[0]).Some? then [ParseCliArg(args[0]).value] + LeadingFlags(args[1..]) else []
  }

  /** Reads an argument vector back into its parts; the inverse of Command's argument layout. */
  function ParseArgs(args: seq<string>): Option<Invocation> {
    if |args| < 2 then None
    else
      match ParseBody(args[..|args| - 2])
      case Some((flags, shell, options)) => Some(Invocation(flags, shell, options, args[|args| - 2], args[|args| - 1]))
      case None => None
  }

  /** Flags, then an optional `-e` and shell string, then option pairs. */
  function ParseBody(body: seq<string>): Option<(seq<RsyncFlag>, Option<string>, seq<RsyncOption>)> {
    var flags := LeadingFlags(body);
    match ParseShellAndOptions(body[|flags|..])
    case Some((shell, options)) => Some((flags, shell, options))
    case None => None
  }

  function ParseShellAndOptions(rest: seq<string>): Option<(Option<string>, seq<RsyncOption>)> {
    var (shell, rest') := if |rest| >= 2 && rest[0] == "-e" then (Some(rest[1]), rest[2..]) else (None, rest);
    match ParseOptionArgs(rest')
    case Some(options) => Some((shell, options))
    case None => None
  }

  /** The `-e` pair for a shell string, when there is one. */
  function ShellPair(shell: Option<string>): (r: seq<string>)
    ensures |r| == if shell.Some? then 2 else 0
  {
    match shell
    case Some(sh) => ["-e", sh]
    case None => []
  }

  lemma ParseBodyOf(flags: seq<RsyncFlag>, shell: Option<string>, options: seq<RsyncOption>)
    ensures ParseBody(FlagArgs(flags) + ShellPair(shell) + OptionArgs(options)) == Some((flags, shell, options))
  {
    var tail := ShellPair(shell) + OptionArgs(options);
    assert FlagArgs(flags) + ShellPair(shell) + OptionArgs(options) == FlagArgs(flags) + tail;
    if shell.None? && options != [] {
      assert tail[0] == "--exclude";
    }
    var body := FlagArgs(flags) + tail;
    LeadingFlagsOf(flags, tail);
    assert body[|flags|..] == tail;
    ParseShellAndOptionsOf(shell, options);
    assert ParseBody(body) == Some((flags, shell, options));
  }

  lemma ParseShellAndOptionsOf(shell: Option<string>, options: seq<RsyncOption>)
    ensures ParseShellAndOptions(ShellPair(shell) + OptionArgs(options)) == Some((shell, options))
  {
    var tail := ShellPair(shell) + OptionArgs(options);
    OptionArgsRoundTrip(options);
    match shell
    case Some(sh) =>
      assert tail[0] == "-e" && tail[1] == sh;
      assert tail[2..] == OptionArgs(options);
    case None =>
      assert tail == OptionArgs(options);
      if options != [] {
        assert tail[0] == "--exclude";
        assert tail[0] != "-e";
      }
  }

  lemma {:induction false} LeadingFlagsOf(flags: seq<RsyncFlag>, rest: seq<string>)
    requires rest == [] || ParseCliArg(rest[0]).None?
    ensures LeadingFlags(FlagArgs(flags) + rest) == flags
    decreases |flags|
  {
    if flags != [] {
      var args := FlagArgs(flags) + rest;
      FlagArgsCons(flags);
      assert args == [AsCliArg(flags[0])] + (FlagArgs(flags[1..]) + rest);
      LeadingFlagsOf(flags[1..], rest);
      assert [flags[0]] + flags[1..] == flags;
    } else {
      assert FlagArgs(flags) + rest == rest;
    }
  }

  lemma FlagArgsCons(flags: seq<RsyncFlag>)
    requires flags != []
    ensures FlagArgs(flags) == [AsCliArg(flags[0])] + FlagArgs(flags[1..])
  {
  }

  /** Every part of the command can be read back from its argument vector, in its place. */
  lemma CommandRoundTrip(src: string, dst: string, host: Option<string>, user: Option<string>,
                         shell: Option<Ssh.SSHShell>, flags: seq<RsyncFlag>, options: seq<RsyncOption>)
    ensures ParseArgs(Command(src, dst, host, user, shell, flags, options).args)
         == Some(Invocation(flags, ShellString(shell), options, src, Destination(dst, host, user)))
  {
    var args := Command(src, dst, host, user, shell, flags, options).args;
    assert args[..|args| - 2] == FlagArgs(flags) + ShellPair(ShellString(shell)) + OptionArgs(options);
    ParseBodyOf(flags, ShellString(shell), options);
  }
}
