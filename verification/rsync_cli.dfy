/**
 * The rsync flags and options a syncer may pass, and the argument strings
 * each one becomes on rsync's command line.
 */
module RsyncCli {
  import opened Wrappers

  datatype RsyncFlag =
    | Recursive
    | IncludeLinks
    | PreservePermissions
    | PreserveModTimes
    | Compress
    | Verbose
    | DeleteAfter

  /** The command-line spelling of a flag; reading it back gives the same flag. */
  function AsCliArg(f: RsyncFlag): (r: string)
    ensures |r| >= 2 && r[0] == '-'
    ensures r[1] == '-' <==> f == DeleteAfter
    ensures f != DeleteAfter ==> |r| == 2
    ensures ParseCliArg(r) == Some(f)
  {
    match f
    case Recursive => "-r"
    case IncludeLinks => "-l"
    case PreservePermissions => "-p"
    case PreserveModTimes => "-t"
    case Compress => "-z"
    case Verbose => "-v"
    case DeleteAfter => "--delete-after"
  }

  /** The inverse of AsCliArg: which flag, if any, a string spells. */
  function ParseCliArg(s: string): Option<RsyncFlag> {
    if s == "-r" then Some(Recursive)
    else if s == "-l" then Some(IncludeLinks)
    else if s == "-p" then Some(PreservePermissions)
    else if s == "-t" then Some(PreserveModTimes)
    else if s == "-z" then Some(Compress)
    else if s == "-v" then Some(Verbose)
    else if s == "--delete-after" then Some(DeleteAfter)
    else None
  }

  /** Distinct flags give distinct argument strings. */
  lemma AsCliArgInjective(f: RsyncFlag, g: RsyncFlag)
    ensures AsCliArg(f) == AsCliArg(g) <==> f == g
  {
    assert ParseCliArg(AsCliArg(f)) == Some(f);
    assert ParseCliArg(AsCliArg(g)) == Some(g);
  }

  datatype RsyncOption = Exclude(pattern: string)

  /** An option becomes its name followed by its value, verbatim. */
  function AsCliArgs(o: RsyncOption): (r: seq<string>)
    ensures |r| == 2
    ensures r[0] == "--exclude"
    ensures ParseCliArgs(r) == Some(o)
  {
    match o
    case Exclude(x) => ["--exclude", x]
  }

  function ParseCliArgs(args: seq<string>): Option<RsyncOption> {
    if |args| == 2 && args[0] == "--exclude" then Some(Exclude(args[1])) else None
  }

  lemma AsCliArgsInjective(o: RsyncOption, p: RsyncOption)
    ensures AsCliArgs(o) == AsCliArgs(p) <==> o == p
  {
    assert ParseCliArgs(AsCliArgs(o)) == Some(o);
    assert ParseCliArgs(AsCliArgs(p)) == Some(p);
  }

  /** The arguments of a sequence of flags, one string per flag, in order. */
  function FlagArgs(flags: seq<RsyncFlag>): (r: seq<string>)
    ensures |r| == |flags|
    ensures forall i :: 0 <= i < |flags| ==> r[i] == AsCliArg(flags[i])
  {
    seq(|flags|, i requires 0 <= i < |flags| => AsCliArg(flags[i]))
  }

  /** The arguments of a sequence of options, two strings per option, in order. */
  function OptionArgs(options: seq<RsyncOption>): (r: seq<string>)
    ensures |r| == 2 * |options|
    decreases |options|
  {
    if options == [] then [] else AsCliArgs(options[0]) + OptionArgs(options[1..])
  }

  /** The inverse of OptionArgs: `--exclude` and value pairs up to the end. */
  function ParseOptionArgs(args: seq<string>): Option<seq<RsyncOption>>
    decreases |args|
  {
    if args == [] then Some([])
    else if |args| >= 2 && args[0] == "--exclude" then
      match ParseOptionArgs(args[2..])
      case Some(rest) => Some([Exclude(args[1])] + rest)
      case None => None
    else None
  }

  lemma {:induction false} OptionArgsRoundTrip(options: seq<RsyncOption>)
    ensures ParseOptionArgs(OptionArgs(options)) == Some(options)
    decreases |options|
  {
    if options != [] {
      var r := OptionArgs(options);
      assert r[2..] == OptionArgs(options[1..]);
      OptionArgsRoundTrip(options[1..]);
      assert [options[0]] + options[1..] == options;
    }
  }
}
