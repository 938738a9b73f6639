/**
  The workspace lookup trie: a tree keyed by path components, each node holding
  an optional payload and a map from component name to child node. A path is
  the sequence of its components, the first of which is the root "/".
 */
module FsTree {
  import opened Wrappers
  import opened Paths

  datatype Node<T> = Node(data: Option<T>, children: map<string, Node<T>>)

  /** `Node::empty` and `FsTree::new`: no payload, no children. */
  function Empty<T>(): Node<T> {
    Node(None, map[])
  }

  /** The payload stored at exactly `p`; None when the walk leaves the tree or that node has none. */
  function Exact<T>(n: Node<T>, p: Segments): Option<T>
    decreases |p|
  {
    if |p| == 0 then n.data
    else if p[0] in n.children then Exact(n.children[p[0]], p[1..])
    else None
  }

  lemma ExactEmpty<T>(p: Segments)
    ensures Exact(Empty<T>(), p) == None
  {
  }

  // ---------------------------------------------------------------- insert

  /**
    `insert_with_path`: walks down `p`, creating missing nodes with no payload,
    and sets the payload of the last node. As a map from paths to payloads the
    tree changes at `p` alone.
   */
  function InsertWithPath<T>(n: Node<T>, p: Segments, d: T): (r: Node<T>)
    ensures Exact(r, p) == Some(d)
    ensures forall q :: q != p ==> Exact(r, q) == Exact(n, q)
    decreases |p|
  {
    if |p| == 0 then n.(data := Some(d))
    else
      var child := if p[0] in n.children then n.children[p[0]] else Empty();
      var child' := InsertWithPath(child, p[1..], d);
      assert forall q :: |q| > 0 && q[0] == p[0] && q != p ==> q[1..] != p[1..] by {
        forall q | |q| > 0 && q[0] == p[0] && q[1..] == p[1..] ensures q == p {
          assert q == [q[0]] + q[1..];
          assert p == [p[0]] + p[1..];
        }
      }
      n.(children := n.children[p[0] := child'])
  }

  /** The key `insert` stores under: a trailing empty component is dropped. */
  function Key(p: Segments): Segments {
    if |p| > 0 && p[|p| - 1] == "" then p[..|p| - 1] else p
  }

  predicate IsAbsoluteKey(p: Segments) {
    |p| > 0 && p[0] == "/"
  }

  /** `FsTree::insert`, which panics (here: fails) unless the path starts at the root. */
  function Insert<T>(t: Node<T>, p: Segments, d: T): (r: Result<Node<T>, string>)
    ensures r.Success? <==> IsAbsoluteKey(Key(p))
    ensures r.Success? ==> Exact(r.value, Key(p)) == Some(d)
    ensures r.Success? ==> forall q :: q != Key(p) ==> Exact(r.value, q) == Exact(t, q)
  {
    var key := Key(p);
    if !IsAbsoluteKey(key) then Failure("path must be absolute")
    else Success(InsertWithPath(t, key, d))
  }

  /** A trailing empty component on the inserted path does not change the result. */
  lemma InsertIgnoresTrailingEmpty<T>(t: Node<T>, p: Segments, d: T)
    requires p == [] || p[|p| - 1] != ""
    ensures Insert(t, p + [""], d) == Insert(t, p, d)
  {
    assert (p + [""])[..|p|] == p;
  }

  // ----------------------------------------------------------- get_closest

  /**
    `get_with_path`: descends along `p` as far as the tree allows and returns
    the payload of the deepest node on that walk that has one.
   */
  function GetWithPath<T>(n: Node<T>, p: Segments): (r: Option<T>)
    ensures n.data.Some? ==> r.Some?
    decreases |p|
  {
    if |p| > 0 && p[0] in n.children then
      GetWithPath(n.children[p[0]], p[1..]).Or(n.data)
    else n.data
  }

  /** `j` is the length of the longest prefix of `p` under which a payload is stored. */
  ghost predicate DeepestStoredAt<T>(n: Node<T>, p: Segments, j: int) {
    && 0 <= j <= |p|
    && Exact(n, p[..j]).Some?
    && forall j' :: j < j' <= |p| ==> Exact(n, p[..j']).None?
  }

  lemma ExactPrefixOfChild<T>(n: Node<T>, p: Segments, j: nat)
    requires 0 < j <= |p|
    ensures p[0] in n.children ==> Exact(n, p[..j]) == Exact(n.children[p[0]], p[1..][..j - 1])
    ensures p[0] !in n.children ==> Exact(n, p[..j]) == None
  {
    assert p[..j][0] == p[0];
    assert p[..j][1..] == p[1..][..j - 1];
  }

  /**
    `get_closest` returns the payload stored under the longest prefix of the
    query that carries one, and none exactly when no prefix (the empty one
    included) carries a payload.
   */
  lemma {:induction false} GetClosestIsDeepestAncestor<T>(n: Node<T>, p: Segments)
    ensures GetWithPath(n, p).None? <==> forall j :: 0 <= j <= |p| ==> Exact(n, p[..j]).None?
    ensures GetWithPath(n, p).Some? ==>
              exists j :: DeepestStoredAt(n, p, j) && GetWithPath(n, p) == Exact(n, p[..j])
    decreases |p|
  {
    assert p[..0] == [];
    if |p| > 0 && p[0] in n.children {
      var c := n.children[p[0]];
      GetClosestIsDeepestAncestor(c, p[1..]);
      forall j | 0 < j <= |p| {
        ExactPrefixOfChild(n, p, j);
      }
      if GetWithPath(c, p[1..]).Some? {
        var jc :| DeepestStoredAt(c, p[1..], jc) && GetWithPath(c, p[1..]) == Exact(c, p[1..][..jc]);
        assert DeepestStoredAt(n, p, jc + 1);
      } else {
        forall j | 0 < j <= |p| ensures Exact(n, p[..j]).None? {
          assert Exact(c, p[1..][..j - 1]).None?;
        }
        if n.data.Some? {
          assert DeepestStoredAt(n, p, 0);
        }
      }
    } else if |p| > 0 {
      forall j | 0 < j <= |p| ensures Exact(n, p[..j]).None? {
        ExactPrefixOfChild(n, p, j);
      }
      if n.data.Some? {
        assert DeepestStoredAt(n, p, 0);
      }
    } else {
      if n.data.Some? {
        assert DeepestStoredAt(n, p, 0);
      }
    }
  }

  /** `FsTree::get_closest`. */
  function GetClosest<T>(t: Node<T>, p: Segments): (r: Option<T>)
    ensures r.Some? ==> exists j :: DeepestStoredAt(t, p, j) && r == Exact(t, p[..j])
    ensures r.None? <==> forall j :: 0 <= j <= |p| ==> Exact(t, p[..j]).None?
  {
    GetClosestIsDeepestAncestor(t, p);
    GetWithPath(t, p)
  }

  /** The deepest stored ancestor is unique, so `get_closest` depends only on the payloads along the query. */
  lemma ClosestDeterminedByPrefixes<T>(n: Node<T>, m: Node<T>, p: Segments)
    requires forall j :: 0 <= j <= |p| ==> Exact(n, p[..j]) == Exact(m, p[..j])
    ensures GetClosest(n, p) == GetClosest(m, p)
  {
    var a, b := GetClosest(n, p), GetClosest(m, p);
    if a.Some? && b.Some? {
      var i :| DeepestStoredAt(n, p, i) && a == Exact(n, p[..i]);
      var k :| DeepestStoredAt(m, p, k) && b == Exact(m, p[..k]);
      assert i == k;
    }
  }

  /** A payload stored at `a` answers every query below `a` that meets no deeper payload. */
  lemma CoveringAncestor<T>(n: Node<T>, a: Segments, q: Segments, d: T)
    requires a <= q
    requires Exact(n, a) == Some(d)
    requires forall j :: |a| < j <= |q| ==> Exact(n, q[..j]).None?
    ensures GetClosest(n, q) == Some(d)
  {
    assert q[..|a|] == a;
    var r := GetClosest(n, q);
    var j :| DeepestStoredAt(n, q, j) && r == Exact(n, q[..j]);
  }

  /** Once a payload is stored at the root "/", every absolute query resolves to some payload. */
  lemma RootCoversEveryAbsolutePath<T>(n: Node<T>, q: Segments)
    requires Exact(n, ["/"]).Some?
    requires IsAbsoluteKey(q)
    ensures GetClosest(n, q).Some?
  {
    assert q[..1] == ["/"];
  }

  /** After `insert(p, d)`, looking up `p` itself yields `d`. */
  lemma GetClosestAfterInsert<T>(t: Node<T>, p: Segments, d: T)
    requires Insert(t, p, d).Success?
    ensures GetClosest(Insert(t, p, d).value, Key(p)) == Some(d)
  {
    var k := Key(p);
    CoveringAncestor(Insert(t, p, d).value, k, k, d);
  }

  /** Inserting at `p` leaves every query that does not run through `p` unchanged. */
  lemma InsertPreservesUnrelatedQueries<T>(t: Node<T>, p: Segments, d: T, q: Segments)
    requires Insert(t, p, d).Success?
    requires !(Key(p) <= q)
    ensures GetClosest(Insert(t, p, d).value, q) == GetClosest(t, q)
  {
    var r := Insert(t, p, d).value;
    forall j | 0 <= j <= |q| ensures Exact(r, q[..j]) == Exact(t, q[..j]) {
      assert q[..j] <= q;
    }
    ClosestDeterminedByPrefixes(r, t, q);
  }

  // --------------------------------------------------- building from entries

  /** Inserting each entry in order, as the start-up loop does; the first non-absolute path aborts. */
  function InsertAll<T>(t: Node<T>, entries: seq<(Segments, T)>): (r: Result<Node<T>, string>)
    ensures r.Success? && entries != [] ==>
              Exact(r.value, Key(entries[|entries| - 1].0)) == Some(entries[|entries| - 1].1)
    decreases |entries|
  {
    if entries == [] then Success(t)
    else
      match InsertAll(t, entries[..|entries| - 1])
      case Failure(e) => Failure(e)
      case Success(t') => Insert(t', entries[|entries| - 1].0, entries[|entries| - 1].1)
  }

  /** The payload of the last entry stored under `q`: later entries win. */
  function LastStored<T>(entries: seq<(Segments, T)>, q: Segments): Option<T>
    decreases |entries|
  {
    if entries == [] then None
    else if Key(entries[|entries| - 1].0) == q then Some(entries[|entries| - 1].1)
    else LastStored(entries[..|entries| - 1], q)
  }

  /** The distinct paths the entries store under. */
  ghost function KeySet<T>(entries: seq<(Segments, T)>): set<Segments>
    decreases |entries|
  {
    if entries == [] then {} else KeySet(entries[..|entries| - 1]) + {Key(entries[|entries| - 1].0)}
  }

  lemma {:induction false} KeySetMembers<T>(entries: seq<(Segments, T)>, q: Segments)
    ensures q in KeySet(entries) <==> exists i :: 0 <= i < |entries| && Key(entries[i].0) == q
    decreases |entries|
  {
    if entries != [] {
      var pre := entries[..|entries| - 1];
      KeySetMembers(pre, q);
      if q in KeySet(pre) {
        var i :| 0 <= i < |pre| && Key(pre[i].0) == q;
        assert entries[i] == pre[i];
      }
      if exists i :: 0 <= i < |entries| && Key(entries[i].0) == q {
        var i :| 0 <= i < |entries| && Key(entries[i].0) == q;
        if i < |pre| {
          assert entries[i] == pre[i];
        }
      }
    }
  }

  function Values<T>(entries: seq<(Segments, T)>): seq<T>
    decreases |entries|
  {
    if entries == [] then [] else Values(entries[..|entries| - 1]) + [entries[|entries| - 1].1]
  }

  ghost predicate DistinctKeys<T>(entries: seq<(Segments, T)>) {
    forall i, j :: 0 <= i < j < |entries| ==> Key(entries[i].0) != Key(entries[j].0)
  }

  lemma {:induction false} LastStoredPresence<T>(entries: seq<(Segments, T)>, q: Segments)
    ensures LastStored(entries, q).Some? <==> q in KeySet(entries)
    decreases |entries|
  {
    if entries != [] {
      LastStoredPresence(entries[..|entries| - 1], q);
    }
  }

  /** Building a tree from `entries` succeeds exactly when every path is absolute. */
  lemma {:induction false} InsertAllSucceeds<T>(t: Node<T>, entries: seq<(Segments, T)>)
    ensures InsertAll(t, entries).Success? <==>
              forall i :: 0 <= i < |entries| ==> IsAbsoluteKey(Key(entries[i].0))
    decreases |entries|
  {
    if entries != [] {
      var pre := entries[..|entries| - 1];
      var last := entries[|entries| - 1];
      InsertAllSucceeds(t, pre);
      forall i | 0 <= i < |pre| ensures pre[i] == entries[i] { }
      match InsertAll(t, pre)
      case Failure(_) =>
      case Success(t') => assert InsertAll(t, entries) == Insert(t', last.0, last.1);
    }
  }

  /** The built tree maps each path to the payload of the last entry stored there. */
  lemma {:induction false} InsertAllExact<T>(entries: seq<(Segments, T)>, q: Segments)
    requires InsertAll(Empty(), entries).Success?
    ensures Exact(InsertAll(Empty(), entries).value, q) == LastStored(entries, q)
    decreases |entries|
  {
    if entries != [] {
      InsertAllExact(entries[..|entries| - 1], q);
    }
  }

  /** Each insert adds one payload, and removes one exactly when its path was already stored. */
  lemma InsertAllStep<T>(entries: seq<(Segments, T)>)
    requires entries != [] && InsertAll(Empty(), entries).Success?
    ensures InsertAll(Empty(), entries[..|entries| - 1]).Success?
    ensures Payloads(InsertAll(Empty(), entries).value)
            + OptMs(LastStored(entries[..|entries| - 1], Key(entries[|entries| - 1].0)))
            == Payloads(InsertAll(Empty(), entries[..|entries| - 1]).value) + multiset{entries[|entries| - 1].1}
  {
    var pre, last := entries[..|entries| - 1], entries[|entries| - 1];
    var t' := InsertAll(Empty(), pre).value;
    PayloadsInsertWithPath(t', Key(last.0), last.1);
    InsertAllExact(pre, Key(last.0));
  }

  /** The built tree holds one payload per distinct stored path. */
  lemma {:induction false} InsertAllCount<T>(entries: seq<(Segments, T)>)
    requires InsertAll(Empty(), entries).Success?
    ensures |Payloads(InsertAll(Empty(), entries).value)| == |KeySet(entries)|
    decreases |entries|
  {
    if entries == [] {
      assert Payloads(Empty<T>()) == multiset{};
    } else {
      var pre, last := entries[..|entries| - 1], entries[|entries| - 1];
      InsertAllStep(entries);
      InsertAllCount(pre);
      LastStoredPresence(pre, Key(last.0));
      CountStep(Payloads(InsertAll(Empty(), entries).value), OptMs(LastStored(pre, Key(last.0))),
                Payloads(InsertAll(Empty(), pre).value), last.1, KeySet(pre), Key(last.0));
    }
  }

  lemma CountStep<T, K>(after: multiset<T>, replaced: multiset<T>, before: multiset<T>, x: T, keys: set<K>, k: K)
    requires after + replaced == before + multiset{x}
    requires |before| == |keys|
    requires |replaced| == (if k in keys then 1 else 0)
    ensures |after| == |keys + {k}|
  {
    assert |after| + |replaced| == |before| + 1 by {
      assert |after + replaced| == |after| + |replaced|;
      assert |before + multiset{x}| == |before| + 1;
    }
    if k !in keys {
      assert |keys + {k}| == |keys| + 1;
    } else {
      assert keys + {k} == keys;
    }
  }

  lemma DistinctPrefix<T>(entries: seq<(Segments, T)>)
    requires entries != [] && DistinctKeys(entries)
    ensures DistinctKeys(entries[..|entries| - 1])
    ensures Key(entries[|entries| - 1].0) !in KeySet(entries[..|entries| - 1])
  {
    var pre := entries[..|entries| - 1];
    KeySetMembers(pre, Key(entries[|entries| - 1].0));
    forall i | 0 <= i < |pre| ensures pre[i] == entries[i] { }
  }

  /** With distinct paths, the built tree holds exactly the entries' payloads. */
  lemma {:induction false} InsertAllDistinct<T>(entries: seq<(Segments, T)>)
    requires InsertAll(Empty(), entries).Success?
    requires DistinctKeys(entries)
    ensures Payloads(InsertAll(Empty(), entries).value) == multiset(Values(entries))
    decreases |entries|
  {
    if entries == [] {
      assert Payloads(Empty<T>()) == multiset{};
    } else {
      var pre, last := entries[..|entries| - 1], entries[|entries| - 1];
      InsertAllStep(entries);
      DistinctPrefix(entries);
      LastStoredPresence(pre, Key(last.0));
      InsertAllDistinct(pre);
      assert multiset(Values(entries)) == multiset(Values(pre)) + multiset{last.1};
    }
  }


  // -------------------------------------------------------------- iteration

  function OptMs<T>(o: Option<T>): multiset<T> {
    match o
    case Some(v) => multiset{v}
    case None => multiset{}
  }

  /** The union of `m[k]` over the keys `keys`, in no particular order. */
  ghost function SumOver<X>(m: map<string, multiset<X>>, keys: set<string>): multiset<X>
    requires keys <= m.Keys
    decreases |keys|
  {
    if keys == {} then multiset{}
    else
      var k :| k in keys;
      m[k] + SumOver(m, keys - {k})
  }

  lemma {:induction false} SumOverPick<X>(m: map<string, multiset<X>>, keys: set<string>, k: string)
    requires keys <= m.Keys && k in keys
    ensures SumOver(m, keys) == m[k] + SumOver(m, keys - {k})
    decreases |keys|
  {
    var k1 :| k1 in keys && SumOver(m, keys) == m[k1] + SumOver(m, keys - {k1});
    if k1 != k {
      SumOverPick(m, keys - {k1}, k);
      SumOverPick(m, keys - {k}, k1);
      assert keys - {k1} - {k} == keys - {k} - {k1};
    }
  }

  lemma {:induction false} SumOverFrame<X>(m: map<string, multiset<X>>, m': map<string, multiset<X>>, keys: set<string>)
    requires keys <= m.Keys && keys <= m'.Keys
    requires forall k :: k in keys ==> m[k] == m'[k]
    ensures SumOver(m, keys) == SumOver(m', keys)
    decreases |keys|
  {
    if keys != {} {
      var k :| k in keys;
      SumOverPick(m, keys, k);
      SumOverPick(m', keys, k);
      SumOverFrame(m, m', keys - {k});
    }
  }

  /** Every payload stored in the tree, with multiplicity: what iterating the tree yields. */
  ghost function Payloads<T>(n: Node<T>): multiset<T>
    decreases n
  {
    OptMs(n.data) + SumOver(ChildPayloads(n), n.children.Keys)
  }

  ghost function ChildPayloads<T>(n: Node<T>): (m: map<string, multiset<T>>)
    ensures m.Keys == n.children.Keys
    decreases n, 0
  {
    map k | k in n.children :: Payloads(n.children[k])
  }

  /** One mark per node: its size bounds the iterator's work. */
  ghost function Shape<T>(n: Node<T>): multiset<()>
    decreases n
  {
    multiset{()} + SumOver(ChildShapes(n), n.children.Keys)
  }

  ghost function ChildShapes<T>(n: Node<T>): (m: map<string, multiset<()>>)
    ensures m.Keys == n.children.Keys
    decreases n, 0
  {
    map k | k in n.children :: Shape(n.children[k])
  }

  /** The payloads of `n` split as its own payload, the child under `k` (if any), and the other children. */
  lemma PayloadsSplitAt<T>(n: Node<T>, k: string)
    ensures Payloads(n) == OptMs(n.data)
                           + (if k in n.children then Payloads(n.children[k]) else multiset{})
                           + SumOver(ChildPayloads(n), n.children.Keys - {k})
  {
    var m := ChildPayloads(n);
    assert Payloads(n) == OptMs(n.data) + SumOver(m, m.Keys);
    if k in n.children {
      SumOverPick(m, m.Keys, k);
      assert m[k] == Payloads(n.children[k]);
      Regroup(Payloads(n), OptMs(n.data) + m[k], OptMs(n.data), m[k], SumOver(m, m.Keys - {k}), SumOver(m, m.Keys));
    } else {
      assert m.Keys - {k} == m.Keys;
    }
  }

  /** Replacing (or adding) the child under `k` swaps that child's payloads for the new child's. */
  lemma PayloadsReplaceChild<T>(n: Node<T>, k: string, c: Node<T>)
    ensures Payloads(n.(children := n.children[k := c]))
            + (if k in n.children then Payloads(n.children[k]) else multiset{})
            == Payloads(n) + Payloads(c)
  {
    var r := n.(children := n.children[k := c]);
    var rest := n.children.Keys - {k};
    PayloadsSplitAt(r, k);
    PayloadsSplitAt(n, k);
    assert r.children.Keys - {k} == rest;
    SumOverFrame(ChildPayloads(r), ChildPayloads(n), rest);
    Rearrange(OptMs(n.data), SumOver(ChildPayloads(n), rest), Payloads(c),
              if k in n.children then Payloads(n.children[k]) else multiset{});
  }

  /** Inserting adds one payload and drops the one it overwrites, if any. */
  lemma {:induction false} PayloadsInsertWithPath<T>(n: Node<T>, p: Segments, d: T)
    ensures Payloads(InsertWithPath(n, p, d)) + OptMs(Exact(n, p)) == Payloads(n) + multiset{d}
    decreases |p|
  {
    var r := InsertWithPath(n, p, d);
    if |p| == 0 {
      assert ChildPayloads(r) == ChildPayloads(n);
    } else {
      var k := p[0];
      var child := if k in n.children then n.children[k] else Empty();
      var child' := InsertWithPath(child, p[1..], d);
      PayloadsInsertWithPath(child, p[1..], d);
      assert r == n.(children := n.children[k := child']);
      PayloadsReplaceChild(n, k, child');
      if k in n.children {
        MultisetShuffle(Payloads(r), Payloads(n), Payloads(child'), Payloads(child), OptMs(Exact(child, p[1..])), multiset{d});
      } else {
        ExactEmpty<T>(p[1..]);
        assert Payloads(Empty<T>()) == multiset{};
        MultisetShuffle(Payloads(r), Payloads(n), Payloads(child'), multiset{}, multiset{}, multiset{d});
      }
    }
  }

  lemma MultisetShuffle<X>(r: multiset<X>, n: multiset<X>, x: multiset<X>, y: multiset<X>, e: multiset<X>, f: multiset<X>)
    requires r + y == n + x
    requires x + e == y + f
    ensures r + e == n + f
  {
    forall z ensures (r + e)[z] == (n + f)[z] {
      assert (r + y)[z] == (n + x)[z];
      assert (x + e)[z] == (y + f)[z];
    }
  }

  lemma Rearrange<X>(a: multiset<X>, b: multiset<X>, x: multiset<X>, y: multiset<X>)
    ensures (a + x + b) + y == (a + y + b) + x
  {
  }

  /** Payloads and node marks summed over a stack of nodes still to visit. */
  ghost function StackPayloads<T>(s: seq<Node<T>>): multiset<T>
    decreases |s|
  {
    if s == [] then multiset{} else StackPayloads(s[..|s| - 1]) + Payloads(s[|s| - 1])
  }

  ghost function StackShape<T>(s: seq<Node<T>>): multiset<()>
    decreases |s|
  {
    if s == [] then multiset{} else StackShape(s[..|s| - 1]) + Shape(s[|s| - 1])
  }

  lemma StackPush<T>(s: seq<Node<T>>, n: Node<T>)
    ensures StackPayloads(s + [n]) == StackPayloads(s) + Payloads(n)
    ensures StackShape(s + [n]) == StackShape(s) + Shape(n)
  {
    assert (s + [n])[..|s|] == s;
  }

  /** Pushing the child under `k` and then the rest is pushing all of `keys`. */
  lemma PushOne<T>(stack: seq<Node<T>>, node: Node<T>, keys: set<string>, k: string, pushed: seq<Node<T>>)
    requires keys <= node.children.Keys && k in keys
    requires StackPayloads(pushed) == StackPayloads(stack + [node.children[k]]) + SumOver(ChildPayloads(node), keys - {k})
    requires StackShape(pushed) == StackShape(stack + [node.children[k]]) + SumOver(ChildShapes(node), keys - {k})
    ensures StackPayloads(pushed) == StackPayloads(stack) + SumOver(ChildPayloads(node), keys)
    ensures StackShape(pushed) == StackShape(stack) + SumOver(ChildShapes(node), keys)
  {
    var child := node.children[k];
    var mp, ms := ChildPayloads(node), ChildShapes(node);
    SumOverPick(mp, keys, k);
    SumOverPick(ms, keys, k);
    StackPush(stack, child);
    assert mp[k] == Payloads(child) && ms[k] == Shape(child);
    Regroup(StackPayloads(pushed), StackPayloads(stack + [child]), StackPayloads(stack), mp[k],
            SumOver(mp, keys - {k}), SumOver(mp, keys));
    Regroup(StackShape(pushed), StackShape(stack + [child]), StackShape(stack), ms[k],
            SumOver(ms, keys - {k}), SumOver(ms, keys));
  }

  lemma Regroup<X>(pushed: multiset<X>, s1: multiset<X>, s0: multiset<X>, c: multiset<X>, rest: multiset<X>, total: multiset<X>)
    requires pushed == s1 + rest && s1 == s0 + c && total == c + rest
    ensures pushed == s0 + total
  {
  }

  /** Pushes the children of `node` under `keys` onto the stack, in the hash map's (unspecified) order. */
  method PushChildren<T>(stack: seq<Node<T>>, node: Node<T>, keys: set<string>) returns (pushed: seq<Node<T>>)
    requires keys <= node.children.Keys
    ensures StackPayloads(pushed) == StackPayloads(stack) + SumOver(ChildPayloads(node), keys)
    ensures StackShape(pushed) == StackShape(stack) + SumOver(ChildShapes(node), keys)
    decreases |keys|
  {
    if keys == {} {
      pushed := stack;
    } else {
      var k :| k in keys;
      pushed := PushChildren(stack + [node.children[k]], node, keys - {k});
      PushOne(stack, node, keys, k, pushed);
    }
  }

  /** The iterator's invariant: items emitted so far plus the payloads still on the stack are the tree's payloads. */
  ghost predicate Accounted<T>(t: Node<T>, items: seq<T>, stack: seq<Node<T>>) {
    multiset(items) + StackPayloads(stack) == Payloads(t)
  }

  lemma EmitPayload<T>(items: seq<T>, node: Node<T>)
    ensures multiset(if node.data.Some? then items + [node.data.value] else items) == multiset(items) + OptMs(node.data)
  {
  }

  lemma Accounting<X>(i: multiset<X>, i': multiset<X>, s1: multiset<X>, s0: multiset<X>, pn: multiset<X>,
                      o: multiset<X>, x: multiset<X>, sp: multiset<X>, total: multiset<X>)
    requires i + s1 == total && s1 == s0 + pn && pn == o + x && sp == s0 + x && i' == i + o
    ensures i' + sp == total
  {
  }

  /** Popping `node` off the stack, emitting its payload and pushing its children keeps every payload accounted for. */
  lemma PopStep<T>(t: Node<T>, items: seq<T>, base: seq<Node<T>>, node: Node<T>, pushed: seq<Node<T>>)
    requires Accounted(t, items, base + [node])
    requires StackPayloads(pushed) == StackPayloads(base) + SumOver(ChildPayloads(node), node.children.Keys)
    ensures Accounted(t, if node.data.Some? then items + [node.data.value] else items, pushed)
  {
    StackPush(base, node);
    EmitPayload(items, node);
    var items' := if node.data.Some? then items + [node.data.value] else items;
    Accounting(multiset(items), multiset(items'), StackPayloads(base + [node]), StackPayloads(base), Payloads(node),
               OptMs(node.data), SumOver(ChildPayloads(node), node.children.Keys), StackPayloads(pushed), Payloads(t));
  }

  /** Popping a node and pushing its children leaves one node fewer to visit. */
  lemma PopShrinks<T>(base: seq<Node<T>>, node: Node<T>, pushed: seq<Node<T>>)
    requires StackShape(pushed) == StackShape(base) + SumOver(ChildShapes(node), node.children.Keys)
    ensures |StackShape(pushed)| < |StackShape(base + [node])|
  {
    StackPush(base, node);
    assert Shape(node) == multiset{()} + SumOver(ChildShapes(node), node.children.Keys);
  }

  /**
    `FsTreeIter` drained by a `for` loop: a stack of nodes still to visit; each
    popped node contributes its payload, if any, and pushes its children. The
    items are exactly the stored payloads.
   */
  method Collect<T>(t: Node<T>) returns (items: seq<T>)
    ensures multiset(items) == Payloads(t)
  {
    items := [];
    var toCheck := [t];
    StackPush([], t);
    assert [] + [t] == [t];
    while |toCheck| > 0
      invariant Accounted(t, items, toCheck)
      decreases |StackShape(toCheck)|
    {
      var node := toCheck[|toCheck| - 1];
      var rest := toCheck[..|toCheck| - 1];
      assert toCheck == rest + [node];
      var pushed := PushChildren(rest, node, node.children.Keys);
      PopStep(t, items, rest, node, pushed);
      PopShrinks(rest, node, pushed);
      items := if node.data.Some? then items + [node.data.value] else items;
      toCheck := pushed;
    }
    assert StackPayloads(toCheck) == multiset{};
  }
}
