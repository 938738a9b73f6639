/**
 * The rsync syncer's configuration: global and per-workspace properties,
 * how they are merged into one concrete syncer, and how the ssh block
 * becomes the shell rsync runs.
 */
module Rsyncer {
  import opened Wrappers
  import opened RsyncCli
  import opened Ssh
  import Paths
  import Strings

  datatype SSHProperties = SSHProperties(options: Option<seq<SSHOption>>)

  datatype SSHAdditionalProperties = SSHAdditionalProperties(additionalOptions: Option<seq<SSHOption>>)

  datatype RsyncProperties = RsyncProperties(
    dstHost: Option<string>,
    dstDir: string,
    additionalFlags: Option<seq<RsyncFlag>>,
    additionalExcludes: Option<seq<string>>,
    ssh: Option<SSHAdditionalProperties>)

  datatype RsyncGlobalProperties = RsyncGlobalProperties(
    defaultDstHost: Option<string>,
    excludes: Option<seq<string>>,
    flags: Option<seq<RsyncFlag>>,
    ssh: Option<SSHProperties>)

  /** A concrete syncer; the datatype constructor stands for `Rsyncer::new`, which stores its arguments as given. */
  datatype Rsyncer = Rsyncer(
    dstDir: string,
    dstHost: Option<string>,
    flags: seq<RsyncFlag>,
    options: seq<RsyncOption>,
    shell: Option<SSHShell>)

  /**
   * Adds a workspace's extra ssh options to a base ssh block. Without extra
   * properties the base is kept. Otherwise base options, when present, are
   * followed by the extra options; absent base options give exactly the extra
   * options, absent ones included.
   */
  function Merge(base: SSHProperties, additional: Option<SSHAdditionalProperties>): (r: SSHProperties)
    ensures additional.None? ==> r == base
    ensures additional.Some? && base.options.Some? ==>
              r.options == Some(base.options.value + OrEmpty(additional.value.additionalOptions))
    ensures additional.Some? && base.options.None? ==> r.options == additional.value.additionalOptions
  {
    match additional
    case None => base
    case Some(extra) =>
      match base.options
      case Some(opts) => SSHProperties(Some(opts + OrEmpty(extra.additionalOptions)))
      case None => SSHProperties(extra.additionalOptions)
  }

  /** The options a block contributes, absent ones as none. */
  function AllOptions(p: SSHProperties, additional: Option<SSHAdditionalProperties>): seq<SSHOption> {
    OrEmpty(p.options) + (match additional case Some(extra) => OrEmpty(extra.additionalOptions) case None => [])
  }

  /** Merging loses nothing and reorders nothing: base options first, then the extra ones. */
  lemma MergeKeepsAllOptions(base: SSHProperties, additional: Option<SSHAdditionalProperties>)
    ensures OrEmpty(Merge(base, additional).options) == AllOptions(base, additional)
  {
    if additional.Some? && base.options.None? {
      assert OrEmpty(base.options) == [];
    }
  }

  /** An option is in the merged block exactly when it is in the base or the extra options. */
  lemma MergeMembership(base: SSHProperties, additional: Option<SSHAdditionalProperties>, o: SSHOption)
    ensures o in OrEmpty(Merge(base, additional).options) <==>
            o in OrEmpty(base.options) || (additional.Some? && o in OrEmpty(additional.value.additionalOptions))
  {
    MergeKeepsAllOptions(base, additional);
  }

  /** The placeholder asking for a freshly generated control path. */
  predicate IsGeneratePlaceholder(o: SSHOption) {
    o.ControlPath? && o.path == "GENERATE"
  }

  /** The control-socket path for a session: `rust-dev-sync-<id>` inside `.ssh` in the home directory. */
  function GeneratedControlPath(home: string, sessionId: string): (r: string)
    ensures Paths.IsAbsolute(home) ==> Paths.IsAbsolute(r)
  {
    Paths.Join(Paths.Join(home, ".ssh"), "rust-dev-sync-" + sessionId)
  }

  /** The generated path ends in `.ssh/rust-dev-sync-` and the session id. */
  lemma GeneratedControlPathShape(home: string, sessionId: string)
    ensures exists prefix :: GeneratedControlPath(home, sessionId) == prefix + ".ssh/rust-dev-sync-" + sessionId
  {
    var prefix := SshDirShape(home);
    SessionFileInSshDir(home, sessionId);
    assert ".ssh" + "/" + "rust-dev-sync-" == ".ssh/rust-dev-sync-";
    Strings.ConcatRegroup(prefix, ".ssh", "/", "rust-dev-sync-", sessionId);
  }

  lemma SessionFileInSshDir(home: string, sessionId: string)
    ensures GeneratedControlPath(home, sessionId) == Paths.Join(home, ".ssh") + "/" + ("rust-dev-sync-" + sessionId)
  {
    var dir := Paths.Join(home, ".ssh");
    var name := "rust-dev-sync-" + sessionId;
    assert name[0] == 'r';
    assert dir[|dir| - 1] == 'h';
  }

  /** The `.ssh` directory is some prefix followed by `.ssh`. */
  lemma SshDirShape(home: string) returns (prefix: string)
    ensures Paths.Join(home, ".ssh") == prefix + ".ssh"
  {
    var dir := Paths.Join(home, ".ssh");
    assert !Paths.IsAbsolute(".ssh");
    prefix := dir[..|dir| - 4];
    assert dir == prefix + dir[|dir| - 4..];
  }

  /**
   * The shell for a block of ssh properties. Every `ControlPath("GENERATE")`
   * becomes a control path for a fresh session (the i-th option's session id
   * is `sessions(i)`); every other option is kept as it is, in its place.
   * Absent options give a shell with no options.
   */
  function AsShell(p: SSHProperties, home: string, sessions: nat -> string): (r: SSHShell)
    ensures |r.options| == |OrEmpty(p.options)|
    ensures forall i :: 0 <= i < |r.options| && !IsGeneratePlaceholder(OrEmpty(p.options)[i]) ==>
              r.options[i] == OrEmpty(p.options)[i]
    ensures forall i :: 0 <= i < |r.options| && IsGeneratePlaceholder(OrEmpty(p.options)[i]) ==>
              r.options[i] == ControlPath(GeneratedControlPath(home, sessions(i)))
  {
    SSHShell(ResolvePlaceholders(OrEmpty(p.options), home, sessions))
  }

  function ResolvePlaceholders(opts: seq<SSHOption>, home: string, sessions: nat -> string): (r: seq<SSHOption>)
    ensures |r| == |opts|
  {
    seq(|opts|, i requires 0 <= i < |opts| =>
      if IsGeneratePlaceholder(opts[i]) then ControlPath(GeneratedControlPath(home, sessions(i))) else opts[i])
  }

  /** With no placeholder among the options, the shell carries the options unchanged. */
  lemma AsShellWithoutPlaceholders(p: SSHProperties, home: string, sessions: nat -> string)
    requires forall i :: 0 <= i < |OrEmpty(p.options)| ==> !IsGeneratePlaceholder(OrEmpty(p.options)[i])
    ensures AsShell(p, home, sessions).options == OrEmpty(p.options)
  {
  }

  /** Under an absolute home every generated control path is absolute, so no placeholder survives. */
  lemma AsShellResolvesPlaceholders(p: SSHProperties, home: string, sessions: nat -> string)
    requires Paths.IsAbsolute(home)
    ensures forall i :: 0 <= i < |AsShell(p, home, sessions).options| ==>
              !IsGeneratePlaceholder(AsShell(p, home, sessions).options[i])
  {
    var r := AsShell(p, home, sessions);
    forall i | 0 <= i < |r.options|
      ensures !IsGeneratePlaceholder(r.options[i])
    {
      if IsGeneratePlaceholder(OrEmpty(p.options)[i]) {
        var path := GeneratedControlPath(home, sessions(i));
        assert Paths.IsAbsolute(path);
        assert path[0] == '/' && "GENERATE"[0] == 'G';
      }
    }
  }

  function GlobalExcludes(g: Option<RsyncGlobalProperties>): seq<string> {
    match g case Some(gp) => OrEmpty(gp.excludes) case None => []
  }

  function GlobalFlags(g: Option<RsyncGlobalProperties>): seq<RsyncFlag> {
    match g case Some(gp) => OrEmpty(gp.flags) case None => []
  }

  function GlobalSsh(g: Option<RsyncGlobalProperties>): Option<SSHProperties> {
    match g case Some(gp) => gp.ssh case None => None
  }

  function ExcludeAll(patterns: seq<string>): (r: seq<RsyncOption>)
    ensures |r| == |patterns|
    ensures forall i :: 0 <= i < |patterns| ==> r[i] == Exclude(patterns[i])
  {
    seq(|patterns|, i requires 0 <= i < |patterns| => Exclude(patterns[i]))
  }

  /**
   * The concrete syncer for a workspace's rsync properties under the global
   * ones: workspace excludes and flags come before the global ones, the
   * workspace destination host overrides the global default, and a shell is
   * built whenever either level configures ssh.
   */
  function AsSyncer(p: RsyncProperties, g: Option<RsyncGlobalProperties>, home: string, sessions: nat -> string): (r: Rsyncer)
    ensures r.dstDir == p.dstDir
    ensures p.dstHost.Some? ==> r.dstHost == p.dstHost
    ensures p.dstHost.None? && g.Some? ==> r.dstHost == g.value.defaultDstHost
    ensures p.dstHost.None? && g.None? ==> r.dstHost.None?
    ensures r.flags == OrEmpty(p.additionalFlags) + GlobalFlags(g)
    ensures |r.options| == |OrEmpty(p.additionalExcludes)| + |GlobalExcludes(g)|
    ensures forall i :: 0 <= i < |OrEmpty(p.additionalExcludes)| ==> r.options[i] == Exclude(OrEmpty(p.additionalExcludes)[i])
    ensures forall i :: 0 <= i < |GlobalExcludes(g)| ==>
              r.options[|OrEmpty(p.additionalExcludes)| + i] == Exclude(GlobalExcludes(g)[i])
    ensures r.shell.None? <==> GlobalSsh(g).None? && p.ssh.None?
  {
    var excludes := ExcludeAll(OrEmpty(p.additionalExcludes) + GlobalExcludes(g));
    var flags := OrEmpty(p.additionalFlags) + GlobalFlags(g);
    var dstHost := p.dstHost.Or(match g case Some(gp) => gp.defaultDstHost case None => None);
    var base := match GlobalSsh(g)
      case Some(s) => Some(s)
      case None => if p.ssh.Some? then Some(SSHProperties(None)) else None;
    var shell := match base
      case Some(b) => Some(AsShell(Merge(b, p.ssh), home, sessions))
      case None => None;
    Rsyncer(p.dstDir, dstHost, flags, excludes, shell)
  }

  /** An exclude or a flag reaches the syncer exactly when either level configures it. */
  lemma AsSyncerMembership(p: RsyncProperties, g: Option<RsyncGlobalProperties>, home: string, sessions: nat -> string,
                           x: string, f: RsyncFlag)
    ensures Exclude(x) in AsSyncer(p, g, home, sessions).options <==> x in OrEmpty(p.additionalExcludes) || x in GlobalExcludes(g)
    ensures f in AsSyncer(p, g, home, sessions).flags <==> f in OrEmpty(p.additionalFlags) || f in GlobalFlags(g)
  {
    var r := AsSyncer(p, g, home, sessions);
    ExcludeMembership(r.options, OrEmpty(p.additionalExcludes), GlobalExcludes(g), x);
    ConcatMembership(OrEmpty(p.additionalFlags), GlobalFlags(g), f);
  }

  lemma ConcatMembership<T>(a: seq<T>, b: seq<T>, x: T)
    ensures x in a + b <==> x in a || x in b
  {
  }

  lemma ExcludeMembership(options: seq<RsyncOption>, local: seq<string>, global: seq<string>, x: string)
    requires |options| == |local| + |global|
    requires forall i :: 0 <= i < |local| ==> options[i] == Exclude(local[i])
    requires forall i :: 0 <= i < |global| ==> options[|local| + i] == Exclude(global[i])
    ensures Exclude(x) in options <==> x in local || x in global
  {
    var r := Rsyncer("", None, [], options, None);
    if Exclude(x) in r.options {
      var k :| 0 <= k < |r.options| && r.options[k] == Exclude(x);
      if k < |local| {
        assert local[k] == x;
      } else {
        assert global[k - |local|] == x;
      }
    }
    if x in local {
      var k :| 0 <= k < |local| && local[k] == x;
      assert r.options[k] == Exclude(x);
    }
    if x in global {
      var k :| 0 <= k < |global| && global[k] == x;
      assert r.options[|local| + k] == Exclude(x);
    }
  }

  /**
   * The shell's options are the global ssh options followed by the
   * workspace's extra ones, each with placeholders resolved.
   */
  lemma AsSyncerShellOptions(p: RsyncProperties, g: Option<RsyncGlobalProperties>, home: string, sessions: nat -> string)
    requires GlobalSsh(g).Some? || p.ssh.Some?
    ensures AsSyncer(p, g, home, sessions).shell.Some?
    ensures AsSyncer(p, g, home, sessions).shell.value
         == AsShell(SSHProperties(Some(AllOptions(match GlobalSsh(g) case Some(s) => s case None => SSHProperties(None), p.ssh))),
                    home, sessions)
  {
    var base := match GlobalSsh(g) case Some(s) => s case None => SSHProperties(None);
    MergeKeepsAllOptions(base, p.ssh);
  }
}
