/**
 * The ssh options a syncer may configure, how each is rendered as an ssh
 * command-line option, and the `ssh ...` string handed to rsync's `-e`.
 */
module Ssh {
  import opened Wrappers
  import opened Strings
  import Decimal

  /** Rust's `i32`. */
  newtype I32 = x: int | -0x8000_0000 <= x < 0x8000_0000

  datatype SSHOption =
    | PasswordAuthentication(flag: bool)
    | ServerAliveInterval(seconds: I32)
    | ServerAliveCountMax(count: I32)
    | ConnectTimeout(timeout: I32)
    | ControlMaster(master: string)
    | ControlPersist(persist: string)
    | ControlPath(path: string)
    | IdentityFile(file: string)

  /** The ssh configuration keyword of a `-o Key=value` option; IdentityFile has none. */
  function KeyName(o: SSHOption): (r: string)
    requires !o.IdentityFile?
    ensures r != "" && '=' !in r
  {
    match o
    case PasswordAuthentication(_) => "PasswordAuthentication"
    case ServerAliveInterval(_) => "ServerAliveInterval"
    case ServerAliveCountMax(_) => "ServerAliveCountMax"
    case ConnectTimeout(_) => "ConnectTimeout"
    case ControlMaster(_) => "ControlMaster"
    case ControlPersist(_) => "ControlPersist"
    case ControlPath(_) => "ControlPath"
  }

  /** The option's value as Rust's `to_string` prints it. */
  function ValueText(o: SSHOption): string {
    match o
    case PasswordAuthentication(b) => Decimal.BoolToString(b)
    case ServerAliveInterval(v) => Decimal.IntToDecimal(v as int)
    case ServerAliveCountMax(v) => Decimal.IntToDecimal(v as int)
    case ConnectTimeout(v) => Decimal.IntToDecimal(v as int)
    case ControlMaster(v) => v
    case ControlPersist(v) => v
    case ControlPath(v) => v
    case IdentityFile(v) => v
  }

  /**
   * The rendering of one option: `-i path` for an identity file, `-o Key=value`
   * with the option's fixed keyword for every other option.
   */
  function AsCliOpt(o: SSHOption): (r: string)
    ensures StartsWith(r, "-i ") <==> o.IdentityFile?
    ensures StartsWith(r, "-o ") <==> !o.IdentityFile?
  {
    if o.IdentityFile? then
      PrefixOf("-i ", o.file);
      "-i " + o.file
    else
      var body := KeyName(o) + "=" + ValueText(o);
      PrefixOf("-o ", body);
      "-o " + body
  }

  lemma PrefixOf(p: string, x: string)
    ensures StartsWith(p + x, p) && (p + x)[|p|..] == x
    ensures |p| == 3 && p[1] == 'o' ==> !StartsWith(p + x, "-i ")
    ensures |p| == 3 && p[1] == 'i' ==> !StartsWith(p + x, "-o ")
  {
    assert (p + x)[..|p|] == p;
  }

  /** The rendering is lossless: reading it back gives the same option. */
  lemma AsCliOptRoundTrip(o: SSHOption)
    ensures ParseCliOpt(AsCliOpt(o)) == Some(o)
  {
    var r := AsCliOpt(o);
    if o.IdentityFile? {
      PrefixOf("-i ", o.file);
    } else {
      PrefixOf("-o ", KeyName(o) + "=" + ValueText(o));
      SplitAtFirstOf(KeyName(o), '=', ValueText(o));
      ParseKeyValueOf(o);
    }
  }

  lemma ParseKeyValueOf(o: SSHOption)
    requires !o.IdentityFile?
    ensures ParseKeyValue(KeyName(o), ValueText(o)) == Some(o)
  {
    match o
    case ServerAliveInterval(v) => ParseI32RoundTrip(v);
    case ServerAliveCountMax(v) => ParseI32RoundTrip(v);
    case ConnectTimeout(v) => ParseI32RoundTrip(v);
    case _ => ParseKeyValueOfText(o);
  }

  lemma ParseI32RoundTrip(v: I32)
    ensures ParseI32(Decimal.IntToDecimal(v as int)) == Some(v)
  {
    Decimal.IntToDecimalRoundTrip(v as int);
  }

  lemma ParseKeyValueOfText(o: SSHOption)
    requires o.PasswordAuthentication? || o.ControlMaster? || o.ControlPersist? || o.ControlPath?
    ensures ParseKeyValue(KeyName(o), ValueText(o)) == Some(o)
  {
  }

  /** Distinct options render differently. */
  lemma AsCliOptInjective(o: SSHOption, p: SSHOption)
    ensures AsCliOpt(o) == AsCliOpt(p) <==> o == p
  {
    AsCliOptRoundTrip(o);
    AsCliOptRoundTrip(p);
  }

  /** The text before and after the first occurrence of `c`, if `c` occurs. */
  function SplitAtFirst(s: string, c: char): (r: Option<(string, string)>)
    ensures r.None? <==> c !in s
    ensures r.Some? ==> s == r.value.0 + [c] + r.value.1 && c !in r.value.0
    decreases |s|
  {
    if s == [] then None
    else if s[0] == c then Some(([], s[1..]))
    else match SplitAtFirst(s[1..], c)
      case None => None
      case Some((a, b)) => Some(([s[0]] + a, b))
  }

  lemma {:induction false} SplitAtFirstOf(a: string, c: char, b: string)
    requires c !in a
    ensures SplitAtFirst(a + [c] + b, c) == Some((a, b))
    decreases |a|
  {
    if a != [] {
      assert (a + [c] + b)[1..] == a[1..] + [c] + b;
      SplitAtFirstOf(a[1..], c, b);
      assert [a[0]] + a[1..] == a;
    } else {
      assert (a + [c] + b)[1..] == b;
    }
  }

  /** Reads a `Key=value` body back into the option it names. */
  function ParseKeyValue(key: string, value: string): (r: Option<SSHOption>)
    ensures r.Some? ==> !r.value.IdentityFile? && KeyName(r.value) == key
  {
    if key == "PasswordAuthentication" then
      (match Decimal.ParseBool(value) case Some(b) => Some(PasswordAuthentication(b)) case None => None)
    else if key == "ServerAliveInterval" then
      (match ParseI32(value) case Some(v) => Some(ServerAliveInterval(v)) case None => None)
    else if key == "ServerAliveCountMax" then
      (match ParseI32(value) case Some(v) => Some(ServerAliveCountMax(v)) case None => None)
    else if key == "ConnectTimeout" then
      (match ParseI32(value) case Some(v) => Some(ConnectTimeout(v)) case None => None)
    else if key == "ControlMaster" then Some(ControlMaster(value))
    else if key == "ControlPersist" then Some(ControlPersist(value))
    else if key == "ControlPath" then Some(ControlPath(value))
    else None
  }

  function ParseI32(s: string): Option<I32> {
    match Decimal.ParseInt(s)
    case Some(v) => if -0x8000_0000 <= v < 0x8000_0000 then Some(v as I32) else None
    case None => None
  }

  /** The inverse of AsCliOpt. */
  function ParseCliOpt(s: string): Option<SSHOption> {
    if StartsWith(s, "-i ") then Some(IdentityFile(s[3..]))
    else if StartsWith(s, "-o ") then
      match SplitAtFirst(s[3..], '=')
      case Some((key, value)) => ParseKeyValue(key, value)
      case None => None
    else None
  }

  datatype SSHShell = SSHShell(options: seq<SSHOption>)

  /** The rendered options, one string per option, in order. */
  function CliOpts(options: seq<SSHOption>): (r: seq<string>)
    ensures |r| == |options|
  {
    seq(|options|, i requires 0 <= i < |options| => AsCliOpt(options[i]))
  }

  /**
   * The shell string rsync runs: `ssh -o ` and then the rendered options
   * joined with ` -o `. Every rendered option already starts with its own
   * `-o ` (or `-i `), so each option ends up behind a doubled `-o`.
   */
  function AsArg(shell: SSHShell): (r: string)
    ensures StartsWith(r, "ssh -o ")
  {
    "ssh -o " + JoinWith(CliOpts(shell.options), " -o ")
  }

  lemma AsArgNoOptions()
    ensures AsArg(SSHShell([])) == "ssh -o "
  {
  }

  /** A single option is rendered right after the leading `ssh -o `. */
  lemma AsArgSingle(o: SSHOption)
    ensures AsArg(SSHShell([o])) == "ssh -o " + AsCliOpt(o)
  {
    assert CliOpts([o]) == [AsCliOpt(o)];
  }

  /** Adding an option appends ` -o ` and its rendering and leaves the rest unchanged. */
  lemma AsArgAppend(options: seq<SSHOption>, o: SSHOption)
    requires options != []
    ensures AsArg(SSHShell(options + [o])) == AsArg(SSHShell(options)) + " -o " + AsCliOpt(o)
  {
    assert CliOpts(options + [o]) == CliOpts(options) + [AsCliOpt(o)];
    JoinSnoc(CliOpts(options), " -o ", AsCliOpt(o));
    ConcatAssoc("ssh -o ", JoinWith(CliOpts(options), " -o "), " -o ", AsCliOpt(o));
  }

  /** A first option other than IdentityFile is preceded by `-o` twice. */
  lemma AsArgDoubledOption(options: seq<SSHOption>)
    requires options != [] && !options[0].IdentityFile?
    ensures StartsWith(AsArg(SSHShell(options)), "ssh -o -o ")
  {
    var joined := JoinWith(CliOpts(options), " -o ");
    JoinedStartsWithOption(options);
    StartsWithAppend("ssh -o ", joined, "-o ");
    assert "ssh -o " + "-o " == "ssh -o -o ";
  }

  lemma JoinedStartsWithOption(options: seq<SSHOption>)
    requires options != [] && !options[0].IdentityFile?
    ensures StartsWith(JoinWith(CliOpts(options), " -o "), "-o ")
  {
    var opts := CliOpts(options);
    assert opts[0] == AsCliOpt(options[0]);
    JoinStartsWithFirst(opts, " -o ");
    StartsWithTransitive(JoinWith(opts, " -o "), opts[0], "-o ");
  }

  lemma {:induction false} JoinStartsWithFirst(parts: seq<string>, sep: string)
    requires parts != []
    ensures StartsWith(JoinWith(parts, sep), parts[0])
    decreases |parts|
  {
    if |parts| > 1 {
      JoinStartsWithFirst(parts[..|parts| - 1], sep);
    }
  }
}
