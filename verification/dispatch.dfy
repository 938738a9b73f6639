/**
 * The file watcher's decision step: building the workspace tree at start-up,
 * and turning each received event into the sync jobs to run. Running the
 * jobs, and the watcher itself, are outside the model.
 */
module Dispatch {
  import opened Wrappers
  import opened Paths
  import opened FsTree
  import opened Config
  import opened Rsyncer

  /** The kind of change a watcher event reports; jobs carry it through unchanged. */
  datatype EventKind = Any | Access | Create | Modify | Remove | Other

  datatype Event = Event(paths: seq<string>, kind: EventKind)

  /** What the watcher's channel delivers: an event or an error. */
  datatype Received = Ok(event: Event) | Err(message: string)

  /** One sync to run: a syncer of a workspace, for a changed file. */
  datatype Job = Job(workspacePath: string, filePath: string, kind: EventKind, syncer: Rsyncer)

  /** Each workspace keyed by the segments of its root path, in configuration order. */
  function Entries(ws: seq<Workspace>): (r: seq<(Segments, Workspace)>)
    ensures |r| == |ws|
    ensures forall i :: 0 <= i < |ws| ==> r[i] == (Components(ws[i].path), ws[i])
  {
    seq(|ws|, i requires 0 <= i < |ws| => (Components(ws[i].path), ws[i]))
  }

  /** The workspace tree: every workspace inserted at its own root, in order. */
  function BuildTree(ws: seq<Workspace>): (r: Result<Node<Workspace>, string>)
    ensures r.Success? && ws != [] ==> Exact(r.value, Components(ws[|ws| - 1].path)) == Some(ws[|ws| - 1])
  {
    var r := InsertAll(Empty(), Entries(ws));
    if ws == [] then r
    else
      KeyOfComponents(ws[|ws| - 1].path);
      r
  }

  /** Path segments never end in an empty segment, so a path's tree key is its segments. */
  lemma KeyOfComponents(s: string)
    ensures Key(Components(s)) == Components(s)
    ensures IsAbsoluteKey(Key(Components(s))) <==> IsAbsolute(s)
  {
  }

  /** Building succeeds exactly when every workspace root is absolute. */
  lemma BuildTreeSucceeds(ws: seq<Workspace>)
    ensures BuildTree(ws).Success? <==> forall i :: 0 <= i < |ws| ==> IsAbsolute(ws[i].path)
  {
    var entries := Entries(ws);
    InsertAllSucceeds(Empty(), entries);
    forall i | 0 <= i < |ws|
      ensures IsAbsoluteKey(Key(entries[i].0)) <==> IsAbsolute(ws[i].path)
    {
      KeyOfComponents(ws[i].path);
    }
  }

  /** A stored path holds the last workspace configured at that path. */
  lemma BuildTreeLastWins(ws: seq<Workspace>, i: nat)
    requires BuildTree(ws).Success? && i < |ws|
    requires forall j :: i < j < |ws| ==> Components(ws[j].path) != Components(ws[i].path)
    ensures Exact(BuildTree(ws).value, Components(ws[i].path)) == Some(ws[i])
  {
    var q := Components(ws[i].path);
    InsertAllExact(Entries(ws), q);
    LastStoredAt(Entries(ws), q, i);
  }

  lemma {:induction false} LastStoredAt(entries: seq<(Segments, Workspace)>, q: Segments, i: nat)
    requires i < |entries| && Key(entries[i].0) == q
    requires forall j :: i < j < |entries| ==> Key(entries[j].0) != q
    ensures LastStored(entries, q) == Some(entries[i].1)
    decreases |entries|
  {
    if i < |entries| - 1 {
      var pre := entries[..|entries| - 1];
      LastStoredAt(pre, q, i);
    }
  }

  /** Every workspace the tree holds sits at the key of its own root path. */
  ghost predicate WellKeyed(t: Node<Workspace>) {
    forall q :: Exact(t, q).Some? ==> Components(Exact(t, q).value.path) == q
  }

  lemma BuildTreeWellKeyed(ws: seq<Workspace>)
    requires BuildTree(ws).Success?
    ensures WellKeyed(BuildTree(ws).value)
  {
    var entries := Entries(ws);
    forall q | Exact(BuildTree(ws).value, q).Some?
      ensures Components(Exact(BuildTree(ws).value, q).value.path) == q
    {
      InsertAllExact(entries, q);
      LastStoredKeyed(ws, entries, q);
    }
  }

  lemma {:induction false} LastStoredKeyed(ws: seq<Workspace>, entries: seq<(Segments, Workspace)>, q: Segments)
    requires forall i :: 0 <= i < |entries| ==> entries[i] == (Components(entries[i].1.path), entries[i].1)
    requires LastStored(entries, q).Some?
    ensures Components(LastStored(entries, q).value.path) == q
    decreases |entries|
  {
    var last := entries[|entries| - 1];
    KeyOfComponents(last.1.path);
    if Key(last.0) != q {
      LastStoredKeyed(ws, entries[..|entries| - 1], q);
    }
  }

  /** With distinct roots, iterating the tree yields every workspace exactly once. */
  lemma BuildTreeHoldsEveryWorkspace(ws: seq<Workspace>)
    requires BuildTree(ws).Success?
    requires forall i, j :: 0 <= i < j < |ws| ==> Components(ws[i].path) != Components(ws[j].path)
    ensures Payloads(BuildTree(ws).value) == multiset(ws)
  {
    var entries := Entries(ws);
    forall i, j | 0 <= i < j < |entries|
      ensures Key(entries[i].0) != Key(entries[j].0)
    {
      KeyOfComponents(ws[i].path);
      KeyOfComponents(ws[j].path);
    }
    InsertAllDistinct(entries);
    ValuesOfEntries(ws);
  }

  lemma {:induction false} ValuesOfEntries(ws: seq<Workspace>)
    ensures Values(Entries(ws)) == ws
    decreases |ws|
  {
    if ws != [] {
      var pre := ws[..|ws| - 1];
      ValuesOfEntries(pre);
      assert Entries(ws)[..|ws| - 1] == Entries(pre);
    }
  }

  /** One job per syncer of the workspace, in syncer order. */
  function JobsFor(w: Workspace, path: string, kind: EventKind): (r: seq<Job>)
    ensures |r| == |w.syncers|
    ensures forall i :: 0 <= i < |r| ==> r[i] == Job(w.path, path, kind, w.syncers[i])
  {
    seq(|w.syncers|, i requires 0 <= i < |w.syncers| => Job(w.path, path, kind, w.syncers[i]))
  }

  /**
   * The jobs for one received message. An error yields none; an event without
   * a path is a failure; otherwise only the first path counts: no workspace
   * covering it, or a workspace ignoring it, yields none, and else every
   * syncer of that workspace gets a job for it.
   */
  function Dispatch(tree: Node<Workspace>, glob: (string, string) -> bool, received: Received): (r: Result<seq<Job>, string>)
    ensures received.Err? ==> r == Success([])
    ensures received.Ok? ==> (r.Failure? <==> received.event.paths == [])
    ensures r.Success? && received.Ok? && GetClosest(tree, Components(received.event.paths[0])).None? ==> r.value == []
    ensures r.Success? && received.Ok? && GetClosest(tree, Components(received.event.paths[0])).Some? ==>
              var w := GetClosest(tree, Components(received.event.paths[0])).value;
              var path := received.event.paths[0];
              (ShouldSync(w, glob, path) ==> r.value == JobsFor(w, path, received.event.kind)) &&
              (!ShouldSync(w, glob, path) ==> r.value == [])
  {
    match received
    case Err(_) => Success([])
    case Ok(event) =>
      if event.paths == [] then Failure("event carries no path")
      else
        var path := event.paths[0];
        match GetClosest(tree, Components(path))
        case None => Success([])
        case Some(w) => if ShouldSync(w, glob, path) then Success(JobsFor(w, path, event.kind)) else Success([])
  }

  /** Only the first path of an event matters. */
  lemma DispatchUsesFirstPath(tree: Node<Workspace>, glob: (string, string) -> bool, paths: seq<string>, kind: EventKind)
    requires paths != []
    ensures Dispatch(tree, glob, Ok(Event(paths, kind))) == Dispatch(tree, glob, Ok(Event(paths[..1], kind)))
  {
  }

  /**
   * In a tree built from the configuration, every job targets the deepest
   * workspace whose root contains the changed file, and that file is not
   * ignored by it.
   */
  lemma DispatchTargetsDeepestWorkspace(ws: seq<Workspace>, glob: (string, string) -> bool, event: Event, job: Job)
    requires BuildTree(ws).Success? && event.paths != []
    requires Dispatch(BuildTree(ws).value, glob, Ok(event)).Success?
    requires job in Dispatch(BuildTree(ws).value, glob, Ok(event)).value
    ensures job.filePath == event.paths[0] && job.kind == event.kind
    ensures Components(job.workspacePath) <= Components(event.paths[0])
    ensures DeepestStoredAt(BuildTree(ws).value, Components(event.paths[0]), |Components(job.workspacePath)|)
    ensures exists w :: Exact(BuildTree(ws).value, Components(job.workspacePath)) == Some(w) &&
                        w.path == job.workspacePath && job.syncer in w.syncers && ShouldSync(w, glob, event.paths[0])
  {
    var tree := BuildTree(ws).value;
    var p := Components(event.paths[0]);
    var w := DispatchJobShape(tree, glob, event, job);
    var j :| DeepestStoredAt(tree, p, j) && Some(w) == Exact(tree, p[..j]);
    BuildTreeWellKeyed(ws);
    assert Components(w.path) == p[..j];
  }

  /** A job comes from the closest workspace of the event's first path, which does not ignore it. */
  lemma DispatchJobShape(tree: Node<Workspace>, glob: (string, string) -> bool, event: Event, job: Job) returns (w: Workspace)
    requires event.paths != []
    requires Dispatch(tree, glob, Ok(event)).Success?
    requires job in Dispatch(tree, glob, Ok(event)).value
    ensures GetClosest(tree, Components(event.paths[0])) == Some(w)
    ensures job == Job(w.path, event.paths[0], event.kind, job.syncer) && job.syncer in w.syncers
    ensures ShouldSync(w, glob, event.paths[0])
  {
    w := GetClosest(tree, Components(event.paths[0])).value;
    var jobs := JobsFor(w, event.paths[0], event.kind);
    var k :| 0 <= k < |jobs| && jobs[k] == job;
  }
}
