/**
 * The configuration file's model and the workspaces built from it: each
 * workspace's root, its syncers (merged with the global rsync settings) and
 * its ignore patterns, resolved against the root.
 */
module Config {
  import opened Wrappers
  import opened Paths
  import opened Rsyncer

  /** A configured syncer; rsync is the only kind. */
  datatype WorkspaceSyncer = Rsync(props: RsyncProperties)

  datatype WorkspaceConfig = WorkspaceConfig(srcDir: string, syncers: seq<WorkspaceSyncer>, ignore: Option<seq<string>>)

  datatype GlobalConfig = GlobalConfig(ignore: Option<seq<string>>, rsync: Option<RsyncGlobalProperties>)

  datatype Config = Config(globalConfig: GlobalConfig, workspaces: seq<WorkspaceConfig>)

  /** A workspace ready for use: its root, its syncers and its resolved ignore patterns. */
  datatype Workspace = Workspace(path: string, syncers: seq<Rsyncer>, ignore: seq<string>)

  /**
   * The last step of reading a workspace root: the canonical path gets a
   * trailing `/` unless it already has one. The result is the shortest
   * extension of the path that ends with `/`.
   */
  function EnsureTrailingSlash(path: string): (r: string)
    ensures EndsWithSlash(r)
    ensures |path| <= |r| <= |path| + 1 && r[..|path|] == path
    ensures EndsWithSlash(path) ==> r == path
  {
    if EndsWithSlash(path) then path else path + "/"
  }

  lemma EnsureTrailingSlashIdempotent(path: string)
    ensures EnsureTrailingSlash(EnsureTrailingSlash(path)) == EnsureTrailingSlash(path)
  {
  }

  /** Adding the slash does not move the workspace: its path segments are unchanged. */
  lemma EnsureTrailingSlashSameSegments(path: string)
    requires path != ""
    ensures Components(EnsureTrailingSlash(path)) == Components(path)
  {
    if !EndsWithSlash(path) {
      TrailingSlashIrrelevant(path);
    }
  }

  /** An ignore pattern as the matcher sees it: absolute ones verbatim, relative ones under the workspace root. */
  function ResolvePattern(root: string, pattern: string): (r: string)
    ensures IsAbsolute(pattern) ==> r == pattern
    ensures !IsAbsolute(pattern) && EndsWithSlash(root) ==> r == root + pattern
    ensures !IsAbsolute(pattern) && root != "" && !EndsWithSlash(root) ==> r == root + "/" + pattern
  {
    if IsAbsolute(pattern) then pattern else Join(root, pattern)
  }

  /** Resolution is exactly joining onto the root, since joining an absolute path yields that path. */
  lemma ResolvePatternIsJoin(root: string, pattern: string)
    ensures ResolvePattern(root, pattern) == Join(root, pattern)
  {
  }

  /** The global patterns, then the workspace's own, each resolved; an absent list contributes nothing. */
  function ResolvePatterns(root: string, global: Option<seq<string>>, local: Option<seq<string>>): (r: seq<string>)
    ensures |r| == |OrEmpty(global)| + |OrEmpty(local)|
    ensures forall i :: 0 <= i < |OrEmpty(global)| ==> r[i] == ResolvePattern(root, OrEmpty(global)[i])
    ensures forall i :: 0 <= i < |OrEmpty(local)| ==>
              r[|OrEmpty(global)| + i] == ResolvePattern(root, OrEmpty(local)[i])
  {
    var front := ResolveAll(root, OrEmpty(global));
    var back := ResolveAll(root, OrEmpty(local));
    assert forall i :: 0 <= i < |back| ==> (front + back)[|front| + i] == back[i];
    front + back
  }

  function ResolveAll(root: string, patterns: seq<string>): (r: seq<string>)
    ensures |r| == |patterns|
    ensures forall i :: 0 <= i < |patterns| ==> r[i] == ResolvePattern(root, patterns[i])
  {
    seq(|patterns|, i requires 0 <= i < |patterns| => ResolvePattern(root, patterns[i]))
  }

  /** The syncer a configured entry stands for, merged with the global rsync settings. */
  function SyncerFor(s: WorkspaceSyncer, g: GlobalConfig, home: string, sessions: nat -> string): (r: Rsyncer)
    ensures r.dstDir == s.props.dstDir
    ensures r.flags == OrEmpty(s.props.additionalFlags) + GlobalFlags(g.rsync)
    ensures r.shell.None? <==> GlobalSsh(g.rsync).None? && s.props.ssh.None?
  {
    match s
    case Rsync(props) => AsSyncer(props, g.rsync, home, sessions)
  }

  /**
   * The workspace for one configuration entry. The j-th syncer draws its
   * control-path session ids from `sessions(j)`.
   */
  function MakeWorkspace(c: WorkspaceConfig, g: GlobalConfig, home: string, sessions: nat -> nat -> string): (w: Workspace)
    ensures w.path == c.srcDir
    ensures |w.syncers| == |c.syncers|
    ensures forall j :: 0 <= j < |c.syncers| ==> w.syncers[j] == SyncerFor(c.syncers[j], g, home, sessions(j))
    ensures w.ignore == ResolvePatterns(c.srcDir, g.ignore, c.ignore)
  {
    Workspace(
      c.srcDir,
      seq(|c.syncers|, j requires 0 <= j < |c.syncers| => SyncerFor(c.syncers[j], g, home, sessions(j))),
      ResolvePatterns(c.srcDir, g.ignore, c.ignore))
  }

  /** One workspace per configuration entry, in order; the i-th draws its session ids from `sessions(i)`. */
  function Workspaces(config: Config, home: string, sessions: nat -> nat -> nat -> string): (r: seq<Workspace>)
    ensures |r| == |config.workspaces|
    ensures forall i :: 0 <= i < |r| ==> r[i].path == config.workspaces[i].srcDir
    ensures forall i :: 0 <= i < |r| ==> |r[i].syncers| == |config.workspaces[i].syncers|
    ensures forall i, j :: 0 <= i < |r| && 0 <= j < |r[i].syncers| ==>
              r[i].syncers[j] == SyncerFor(config.workspaces[i].syncers[j], config.globalConfig, home, sessions(i)(j))
    ensures forall i :: 0 <= i < |r| ==>
              r[i].ignore == ResolvePatterns(config.workspaces[i].srcDir, config.globalConfig.ignore, config.workspaces[i].ignore)
  {
    var r := seq(|config.workspaces|, i requires 0 <= i < |config.workspaces| =>
      MakeWorkspace(config.workspaces[i], config.globalConfig, home, sessions(i)));
    assert forall i :: 0 <= i < |r| ==> r[i] == MakeWorkspace(config.workspaces[i], config.globalConfig, home, sessions(i));
    r
  }

  /** A workspace at `/local/dir1` with relative ignore patterns gets them rooted at `/local/dir1/`. */
  lemma RelativePatternsUnderRoot(home: string, sessions: nat -> nat -> nat -> string)
    ensures Workspaces(Config(GlobalConfig(None, None),
                              [WorkspaceConfig("/local/dir1", [], Some(["*/ignore-1/*", "ignore-2/*", "ignore-3"]))]),
                       home, sessions)[0].ignore
         == ["/local/dir1/*/ignore-1/*", "/local/dir1/ignore-2/*", "/local/dir1/ignore-3"]
  {
    var pats := ["*/ignore-1/*", "ignore-2/*", "ignore-3"];
    var c := Config(GlobalConfig(None, None), [WorkspaceConfig("/local/dir1", [], Some(pats))]);
    var ws := Workspaces(c, home, sessions);
    assert ws[0].ignore == ResolvePatterns(c.workspaces[0].srcDir, c.globalConfig.ignore, c.workspaces[0].ignore);
    ScenarioPatterns(pats);
  }

  lemma ScenarioPatterns(pats: seq<string>)
    requires pats == ["*/ignore-1/*", "ignore-2/*", "ignore-3"]
    ensures ResolvePatterns("/local/dir1", None, Some(pats))
         == ["/local/dir1/*/ignore-1/*", "/local/dir1/ignore-2/*", "/local/dir1/ignore-3"]
  {
    var r := ResolvePatterns("/local/dir1", None, Some(pats));
    assert |r| == 3;
    UnderDir1(pats[0], "/local/dir1/*/ignore-1/*");
    UnderDir1(pats[1], "/local/dir1/ignore-2/*");
    UnderDir1(pats[2], "/local/dir1/ignore-3");
    assert r[0] == "/local/dir1/*/ignore-1/*";
    assert r[1] == "/local/dir1/ignore-2/*";
    assert r[2] == "/local/dir1/ignore-3";
  }

  lemma UnderDir1(pattern: string, expected: string)
    requires pattern != "" && pattern[0] != '/' && expected == "/local/dir1/" + pattern
    ensures ResolvePattern("/local/dir1", pattern) == expected
  {
    assert "/local/dir1" + "/" == "/local/dir1/";
  }

  /** Whether any resolved pattern matches the path, for a glob matcher `glob(pattern, path)`. */
  function IsMatch(patterns: seq<string>, glob: (string, string) -> bool, path: string): (r: bool)
    ensures r <==> exists i :: 0 <= i < |patterns| && glob(patterns[i], path)
    decreases |patterns|
  {
    if patterns == [] then false
    else if glob(patterns[|patterns| - 1], path) then true
    else
      var pre := patterns[..|patterns| - 1];
      assert forall i :: 0 <= i < |pre| ==> pre[i] == patterns[i];
      IsMatch(pre, glob, path)
  }

  /** A path is synced exactly when no ignore pattern of the workspace matches it. */
  function ShouldSync(w: Workspace, glob: (string, string) -> bool, path: string): (r: bool)
    ensures r <==> forall i :: 0 <= i < |w.ignore| ==> !glob(w.ignore[i], path)
  {
    !IsMatch(w.ignore, glob, path)
  }
}
