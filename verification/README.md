# rust-dev-sync, modelled in Dafny

rust-dev-sync watches local workspace directories and mirrors every change
to a remote copy with rsync. This project models the program's pure core and
proves properties of it:

- **the workspace tree** (`FsTree`, fstree.dfy). A trie keyed by path segments,
  whose root segment is `"/"`. `Insert` stores a payload at an absolute path.
  `GetClosest` returns the payload of the deepest stored ancestor of a query
  path. `Collect` runs the tree's worklist iterator and yields every stored
  payload. Paths are split into segments by `Paths.Components` (paths.dfy).
- **the configuration merge** (`Rsyncer`, rsyncer.dfy; `Config`, config.dfy).
  SSH properties are merged with global options first. The `ControlPath("GENERATE")`
  placeholder is replaced by a generated control path. Per-workspace rsync
  settings are combined with the global ones into a concrete `Rsyncer`.
  The trailing-slash step that normalises a workspace root is modelled on
  its own (`Config.EnsureTrailingSlash`). `Config.Workspaces` takes a
  configuration as already read, so its roots are used as given. Ignore
  patterns are resolved against the root, and `ShouldSync` filters paths
  through them.
- **the command-line serialisers** (`RsyncCli`, rsync_cli.dfy; `Ssh`, ssh.dfy;
  `Rsync`, rsync.dfy). Rsync flags and options become argument strings. SSH
  options become `-o Key=value` or `-i file`, and a shell becomes its `ssh -o …`
  string. The whole rsync argument vector is built, ending with the
  `user@host:dst` destination. Flags, rsync options, single ssh options and
  the whole rsync argument vector each have a parser and a proof that parsing
  reads the output back. The `ssh …` shell string and the destination are
  stated by their exact layout instead.
- **the per-event dispatch** (`Dispatch`, dispatch.dfy). The tree is built
  from the configured workspaces. Each received event becomes the list of
  sync jobs to spawn.

Supporting modules:

- `Wrappers` holds `Option` and `Result`.
- `Strings` holds string joining and prefixes.
- `Decimal` holds decimal rendering of integers and booleans.

The Rust constructors `SSHShell::new` and `Rsyncer::new` only store their
arguments; the datatype constructors `Ssh.SSHShell` and `Rsyncer.Rsyncer`
stand for them.

Randomness and the environment are parameters:

- The home directory is a `home: string` parameter.
- Session ids come from a generator function. `AsShell` takes `sessions: nat -> string`, indexed by option position. `Config.Workspaces` takes a generator indexed by workspace, syncer and option position.
- Glob matching is an abstract predicate `glob(pattern, path)`.

## Model

| member | source | states |
|---|---|---|
| FsTree.InsertWithPath | src/fstree.rs:44-55 | the payload is stored at exactly the given segment path; every other path keeps what it held |
| FsTree.Insert | src/fstree.rs:33-42 | insertion succeeds exactly when the path (after dropping one trailing empty segment) starts at the root `/`; then the payload is stored at that key and every other key is unchanged |
| FsTree.InsertIgnoresTrailingEmpty | src/fstree.rs:34-37 | an empty last segment, which `insert` drops before checking absoluteness, does not change where a payload is stored; segments from `Paths.Components` never contain one |
| FsTree.ExactEmpty | src/fstree.rs:27-31 | a new tree stores nothing anywhere |
| FsTree.GetWithPath | src/fstree.rs:62-66 | a node's own payload is the fallback: a node that holds one always yields some payload |
| FsTree.GetClosestIsDeepestAncestor | src/fstree.rs:62-66 | the recursive lookup yields nothing exactly when no prefix of the query stores a payload, and otherwise the payload of the deepest stored prefix |
| FsTree.GetClosest | src/fstree.rs:57-60 | the closest lookup returns the payload at the deepest stored prefix of the query, and none exactly when no prefix stores one |
| FsTree.ClosestDeterminedByPrefixes | src/fstree.rs:57-66 | two trees agreeing on every prefix of a query give the same closest answer |
| FsTree.CoveringAncestor | src/fstree.rs:156-164 | a payload at an ancestor covers every deeper query with no stored path in between |
| FsTree.RootCoversEveryAbsolutePath | src/fstree.rs:177-186 | once the root `/` holds a payload, every absolute query finds some payload |
| FsTree.GetClosestAfterInsert | src/fstree.rs:44-48 | after inserting at a path, the lookup of that path returns the new payload, replacing any earlier one |
| FsTree.InsertPreservesUnrelatedQueries | src/fstree.rs:50-54 | inserting at a path does not change the answer for any query that does not have that path as a segment prefix |
| FsTree.InsertAll | src/main.rs:19-22 | after inserting a list in order, the last entry's payload is found at its key |
| FsTree.InsertAllSucceeds | src/main.rs:19-22 | inserting a list of entries succeeds exactly when every key is absolute |
| FsTree.InsertAllExact | src/main.rs:19-22 | after inserting a list into a new tree, each key holds the payload of the last entry with that key |
| FsTree.KeySetMembers | src/main.rs:19-22 | the set of keys of an entry list is exactly the keys of its entries |
| FsTree.LastStoredPresence | src/main.rs:19-22 | some entry's payload is stored at a key exactly when that key is among the entry keys |
| FsTree.InsertAllStep | src/fstree.rs:44-55 | inserting one more entry adds its payload to the stored multiset and removes the payload it replaces |
| FsTree.InsertAllCount | src/fstree.rs:219-227 | the tree built from a list stores exactly as many payloads as there are distinct keys |
| FsTree.InsertAllDistinct | src/fstree.rs:208-227 | with distinct keys, the tree stores exactly the multiset of the inserted payloads |
| FsTree.PayloadsInsertWithPath | src/fstree.rs:44-55 | inserting adds the new payload and removes only the payload previously at that path |
| FsTree.PushChildren | src/fstree.rs:110-114 | pushing a node's children adds exactly their payloads, and their sizes, to the worklist |
| FsTree.PopStep | src/fstree.rs:107-114 | popping a node and pushing its children keeps every stored payload accounted for, once, in the output or the worklist |
| FsTree.PopShrinks | src/fstree.rs:107-114 | each pop strictly shrinks the worklist's remaining nodes, so iteration terminates |
| FsTree.Collect | src/fstree.rs:87-117 | iterating the tree yields every stored payload exactly once: the output's multiset equals the tree's payloads |
| Paths.Components | src/fstree.rs:34 | an absolute path splits into the root segment `/` then non-empty names without `/` |
| Paths.ComponentsOfNames | src/fstree.rs:34 | the components of `/` followed by names joined with `/` are exactly the root and those names, in order |
| Paths.TrailingSlashIrrelevant | src/fstree.rs:152-176 | a trailing `/` does not change a path's segments |
| Paths.Join | src/config.rs:114 | joining onto a root keeps an absolute pattern as written; otherwise it yields the root, then a separator when the root lacks one, then the pattern |
| Config.EnsureTrailingSlash | src/config.rs:26-31 | the normalised root ends with `/`; it is the path itself or the path plus one `/`; a root already ending in `/` is unchanged |
| Config.EnsureTrailingSlashIdempotent | src/config.rs:26-31 | normalising twice is normalising once |
| Config.EnsureTrailingSlashSameSegments | src/config.rs:26-31 | the added `/` does not move the workspace: its segments are unchanged |
| Config.ResolvePattern | src/config.rs:110-115 | an absolute pattern is kept verbatim; a relative one is placed under the workspace root |
| Config.ResolvePatternIsJoin | src/config.rs:110-115 | resolving a pattern agrees with joining it onto the root in both branches |
| Config.ResolvePatterns | src/config.rs:119-120 | the resolved list is the global patterns, then the workspace's, in order; an absent list contributes nothing |
| Config.SyncerFor | src/config.rs:55-63 | a configured rsync syncer becomes a syncer with its destination directory, its flags before the global flags, and a shell exactly when either level configures ssh |
| Config.MakeWorkspace | src/config.rs:100-127 | a workspace keeps its configured root, has one merged syncer per configured syncer in order, and has the resolved ignore patterns |
| Config.Workspaces | src/config.rs:97-129 | one workspace per configuration entry, in order, each with its root, its syncers and its resolved patterns |
| Config.RelativePatternsUnderRoot | src/config.rs:143-167 | relative patterns of a workspace at `/local/dir1` become patterns under `/local/dir1/` |
| Config.IsMatch | src/config.rs:86 | the pattern set matches a path exactly when one of its patterns does |
| Config.ShouldSync | src/config.rs:85-87 | a path is synced exactly when no ignore pattern matches it |
| Rsyncer.Merge | src/syncers/rsyncer.rs:66-82 | no additional properties leave the base unchanged; with base options, the additional options follow them in order; without base options, the result is exactly the additional options |
| Rsyncer.MergeKeepsAllOptions | src/syncers/rsyncer.rs:71-80 | the merged options are the base options followed by the additional ones |
| Rsyncer.MergeMembership | src/syncers/rsyncer.rs:199-219 | an option is in the merge exactly when it is in the base or the additional options |
| Rsyncer.GeneratedControlPath | src/syncers/rsyncer.rs:175-180 | a control path under an absolute home is absolute |
| Rsyncer.GeneratedControlPathShape | src/syncers/rsyncer.rs:241-248 | the generated control path ends in `.ssh/rust-dev-sync-` followed by the session id |
| Rsyncer.SessionFileInSshDir | src/syncers/rsyncer.rs:176-178 | the control path is the session file inside the home's `.ssh` directory |
| Rsyncer.AsShell | src/syncers/rsyncer.rs:84-102 | the shell has as many options as the properties, in order; non-placeholder options are kept and each placeholder becomes a generated control path; absent options give none |
| Rsyncer.AsShellWithoutPlaceholders | src/syncers/rsyncer.rs:90-96 | without placeholders, the shell's options are exactly the configured ones |
| Rsyncer.AsShellResolvesPlaceholders | src/syncers/rsyncer.rs:232-249 | with an absolute home, no placeholder survives in the shell |
| Rsyncer.AsSyncer | src/syncers/rsyncer.rs:128-172 | excludes are the workspace's then the global ones; flags are the workspace's then the global ones; the workspace host overrides the global default; the destination directory passes through; a shell exists exactly when either level configures ssh |
| Rsyncer.AsSyncerMembership | src/syncers/rsyncer.rs:279-287 | an exclude or flag reaches the syncer exactly when either level configures it |
| Rsyncer.AsSyncerShellOptions | src/syncers/rsyncer.rs:164-170 | the shell is built from the global ssh options (or none) followed by the workspace's extra options |
| RsyncCli.AsCliArg | src/rsync/cli.rs:16-25 | every flag string starts with `-`; only `DeleteAfter` is a long form; the flag can be read back from its string |
| RsyncCli.AsCliArgInjective | src/rsync/cli.rs:16-25 | distinct flags give distinct strings |
| RsyncCli.AsCliArgs | src/rsync/cli.rs:35-40 | an option becomes exactly two strings, `--exclude` and then its value, which read back to the option |
| RsyncCli.AsCliArgsInjective | src/rsync/cli.rs:35-40 | distinct options give distinct argument pairs |
| RsyncCli.OptionArgs | src/rsync/mod.rs:28-30 | two arguments per option |
| RsyncCli.OptionArgsRoundTrip | src/rsync/mod.rs:28-30 | the option arguments read back to the options, in order |
| Rsync.Destination | src/rsync/mod.rs:32-41 | when the joined `user@host` text is empty (no user and no or an empty host, or an empty user alone) the destination is `dst`; otherwise that text, a colon, then `dst` |
| Rsync.Command | src/rsync/mod.rs:10-42 | the program is `rsync`; there are as many arguments as flags, plus two for a shell, two per option, and two more; the source and the destination come last |
| Rsync.CommandRoundTrip | src/rsync/mod.rs:19-41 | the argument vector reads back to its flags, shell string, options, source and destination, in that order |
| Rsync.LeadingFlagsOf | src/rsync/mod.rs:21-23 | the flag arguments at the front read back to the flags |
| Rsync.ParseBodyOf | src/rsync/mod.rs:21-30 | flags, then `-e` and the shell string when present, then options read back to their parts |
| Decimal.NatToDecimalValue | src/rsync/shell/ssh.rs:22-28 | the digits of a natural number denote that number |
| Decimal.IntToDecimal | src/rsync/shell/ssh.rs:22-28 | an integer renders as digits, with a leading `-` exactly when it is negative |
| Decimal.IntToDecimalRoundTrip | src/rsync/shell/ssh.rs:22-28 | an integer's rendering parses back to the integer |
| Decimal.IntToDecimalInjective | src/rsync/shell/ssh.rs:22-28 | distinct integers render differently |
| Decimal.BoolToString | src/rsync/shell/ssh.rs:19-21 | a boolean renders as `true` or `false`, which reads back to it |
| Ssh.KeyName | src/rsync/shell/ssh.rs:19-31 | every key/value option has a fixed, non-empty key name containing no `=` |
| Ssh.AsCliOpt | src/rsync/shell/ssh.rs:17-34 | an identity file renders with `-i `; every other option renders with `-o ` |
| Ssh.AsCliOptRoundTrip | src/rsync/shell/ssh.rs:17-34 | an option's rendering parses back to the option, so `-o Key=value` carries both key and value |
| Ssh.AsCliOptInjective | src/rsync/shell/ssh.rs:17-34 | distinct options render differently |
| Ssh.ParseI32RoundTrip | src/rsync/shell/ssh.rs:22-28 | a 32-bit integer's decimal rendering parses back to it |
| Ssh.AsArg | src/rsync/shell/ssh.rs:63-71 | the shell string starts with `ssh -o ` |
| Ssh.AsArgNoOptions | src/rsync/shell/ssh.rs:70 | with no options the shell string is exactly `ssh -o ` |
| Ssh.AsArgSingle | src/rsync/shell/ssh.rs:63-71 | a single option is rendered right after `ssh -o ` |
| Ssh.AsArgAppend | src/rsync/shell/ssh.rs:64-70 | each further option is appended as ` -o ` and its rendering |
| Ssh.AsArgDoubledOption | src/rsync/shell/ssh.rs:63-71 | when the first option is a key/value option, the string starts `ssh -o -o ` |
| Dispatch.BuildTree | src/main.rs:19-22 | when building succeeds, the last configured workspace is stored at the segments of its root |
| Dispatch.BuildTreeSucceeds | src/main.rs:19-22 | building the tree succeeds exactly when every workspace root is absolute |
| Dispatch.BuildTreeLastWins | src/main.rs:19-22 | a workspace not followed by another at the same root is stored at its root, so a later one replaces an earlier one |
| Dispatch.BuildTreeWellKeyed | src/main.rs:19-22 | every workspace in the tree is stored at the segments of its own root |
| Dispatch.BuildTreeHoldsEveryWorkspace | src/main.rs:27-32 | with distinct roots, the tree's payloads are exactly the configured workspaces |
| Dispatch.Dispatch | src/main.rs:42-68 | an error yields no jobs; an event without a path fails; no covering workspace, or an ignored path, yields no jobs; otherwise one job per syncer in order |
| Dispatch.JobsFor | src/main.rs:49-61 | one job per syncer of the workspace, in syncer order, each with the workspace path, the event path and the event kind |
| Dispatch.DispatchUsesFirstPath | src/main.rs:46 | only the first path of an event matters |
| Dispatch.DispatchJobShape | src/main.rs:46-53 | every job comes from the closest workspace of the event's first path, carries one of its syncers, and that workspace does not ignore the path |
| Dispatch.DispatchTargetsDeepestWorkspace | src/main.rs:46-61 | every job is for the event's first path and kind, and targets the deepest workspace whose root is a segment prefix of that path; that workspace holds the job's syncer and does not ignore the path |

## Left out

- `src/notify_tokio.rs`, the file watcher, `tokio::spawn`, the ctrl-c handler and ordering between spawned tasks: these are concurrency and I/O. A job list stands for the spawned tasks.
- `src/cli.rs`: command-line declarations only; the event loop never uses them.
- `src/syncers/mod.rs`: the `Syncer` trait. `Rsyncer` is its only implementation and is modelled directly.
- `Config::parse`: file reading and YAML decoding are I/O. Configurations are given as values.
- The existence check and canonicalisation in `canonicalize`: these touch the filesystem. Only the trailing-slash step is modelled.
- `rsync::rsync`: spawning the process and decoding its output. Only the argument vector is modelled.
- `Rsyncer::sync`: it forwards to `rsync::rsync` with the workspace path as source and no user. `Rsync.Command` covers the arguments it would produce.
- Glob compilation and matching are an external library. `IsMatch` is over an abstract `glob(pattern, path)` predicate, and the panic on a malformed glob is not modelled.
- `SSHOption`'s `Drop` implementation deletes a control-path file, which is I/O.
- `generate_session_id` and the home-directory lookup are randomness and environment. They are parameters, and nothing constrains an id to seven alphanumeric characters.
- `Paths.Components` splits on `/` and drops empty pieces. Rust's `Path` also treats `.` and prefixes specially, and that is not modelled.
- `main`'s config location and its start-up `unwrap` panics are not modelled, apart from the `insert` panic on a relative root, which becomes a failed `BuildTree`.
- `Dispatch.EventKind` keeps only the top-level kind of a notify event (`Create`, `Modify`, and so on) and drops its sub-kind. Jobs carry the kind through unchanged and nothing in the model inspects it.
- `Config.Workspaces` uses each configured root as given. The trailing `/` that deserialisation adds is modelled separately by `Config.EnsureTrailingSlash`, and `Config.EnsureTrailingSlashSameSegments` shows it does not change the tree key.
- Dispatch.Dispatch: the panic on an event without a path is modelled as a `Failure` result rather than an abort.
- RsyncCli.OptionArgs: its contract states only the length; the order and contents of the arguments are stated by `RsyncCli.OptionArgsRoundTrip`.
- Ssh.AsArg: its contract states only the prefix. The exact layout is stated by three lemmas: `Ssh.AsArgNoOptions` for no options, `Ssh.AsArgSingle` for one, and `Ssh.AsArgAppend` for each further option. `as_arg` puts `-o ` before every rendered option, including the first and any `-i` identity option, and the model keeps that literally. `Ssh.AsArgDoubledOption` states the resulting `ssh -o -o ` prefix.
