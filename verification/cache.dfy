/** The node cache of `ZVModelImpl`: a `path -> record` map and a
    `path -> ordered child paths` map (records are equal exactly when their paths
    are, so keying the child lists by path loses nothing). Server replies are
    inputs; every transition returns the new cache and the model events it
    fired, in order. */
module NodeCache {
  import opened Base
  import opened Lists
  import opened Paths
  import opened ZNode

  datatype Cache = Cache(nodes: map<string, Node>, children: map<string, seq<string>>)

  /** The state after construction, and after `close` clears both maps. */
  const Empty := Cache(map[], map[])

  /** Model-level notifications (`nodeCreated`, `nodeDeleted(node, oldIndex)`,
      `nodeDataChanged`); a node is named by its path. */
  datatype Event = Created(path: string) | Deleted(path: string, oldIndex: int) | DataChanged(path: string)

  /** A transition's outcome: the new cache, the events fired, and the paths
      whose children listing was requested (`populateChildren`), in order. */
  datatype Step = Step(cache: Cache, events: seq<Event>, pending: seq<string>)

  /** The reply to `getData(path, watcher, stat)`: payload and stat, or an exception. */
  datatype Fetch = Fetched(data: Option<Bytes>, stat: Stat) | FetchFailed

  /** Exceptions that escape an operation instead of being caught and logged. */
  datatype Fault =
    | NodeAlreadyExists  // IllegalStateException from addNode
    | ParentMissing      // IllegalArgumentException from addNode
    | NullRecord         // NullPointerException on a path the cache does not track
    | NoRootRecord       // IllegalArgumentException from a tree path without a root
    | IndexOutOfRange    // IndexOutOfBoundsException from a list lookup

  /** `x` is tracked and not tombstoned. */
  predicate IsLive(c: Cache, x: string)
  {
    x in c.nodes && c.nodes[x].live
  }

  /** `x` may stand in the child list of `p`: a live record whose parent path is `p`. */
  predicate Listable(c: Cache, p: string, x: string)
  {
    IsLive(c, x) && ParentPath(x) == Some(p)
  }

  /** The representation invariant every transition keeps:
      - both maps have the same keys, every record sits under its own path, and
        every path is canonical;
      - the parent of every tracked non-root path is tracked;
      - child lists hold live direct children only, each at most once. */
  predicate Wf(c: Cache)
  {
    && c.nodes.Keys == c.children.Keys
    && (forall p :: p in c.nodes ==> c.nodes[p].path == p && Canonical(p))
    && (forall p :: p in c.nodes && p != Root ==> ParentPath(p).Some? && ParentPath(p).value in c.nodes)
    && (forall p, i :: p in c.children && 0 <= i < |c.children[p]| ==> Listable(c, p, c.children[p][i]))
    && (forall p :: p in c.children ==> NoDups(c.children[p]))
  }

  lemma EmptyIsWf()
    ensures Wf(Empty)
  {
  }

  /** `populateRoot`: seeds the root from the reply only when no root is tracked;
      a failed read is caught and changes nothing. */
  function PopulateRoot(c: Cache, reply: Fetch): (r: Step)
    ensures Root in c.nodes || reply.FetchFailed? ==> r == Step(c, [], [])
    ensures Root !in c.nodes && reply.Fetched? ==>
      && Root in r.cache.nodes
      && r.cache.nodes == c.nodes[Root := r.cache.nodes[Root]]
      && r.cache.nodes[Root].path == Root && r.cache.nodes[Root].live
      && r.cache.nodes[Root].data == reply.data
      && r.cache.nodes[Root].stat == Some(reply.stat)
      && r.cache.children == c.children[Root := []]
      && r.events == [Created(Root)]
      && r.pending == [Root]
  {
    if Root in c.nodes then Step(c, [], [])
    else match reply
      case FetchFailed => Step(c, [], [])
      case Fetched(data, stat) =>
        var root := SetStat(NewLiveNode(Root, data), Some(stat)).node;
        Step(Cache(c.nodes[Root := root], c.children[Root := []]), [Created(Root)], [Root])
  }

  /** Once a root is seeded, populating again changes nothing and fires nothing. */
  lemma PopulateRootIdempotent(c: Cache, first: Fetch, second: Fetch)
    requires Root in c.nodes || first.Fetched?
    ensures var r := PopulateRoot(c, first);
            PopulateRoot(r.cache, second) == Step(r.cache, [], [])
  {
  }

  /** Seeding an untracked root with an empty child list keeps the invariant. */
  lemma SeedKeepsWf(c: Cache, root: Node)
    requires Wf(c) && Root !in c.nodes && root.path == Root
    ensures Wf(Cache(c.nodes[Root := root], c.children[Root := []]))
  {
    var c' := Cache(c.nodes[Root := root], c.children[Root := []]);
    SeedKeepsLists(c, root);
    assert c'.nodes.Keys == c'.children.Keys;
    forall p | p in c'.nodes
      ensures c'.nodes[p].path == p && Canonical(p)
    {
      if p != Root { assert p in c.nodes; }
    }
    forall p | p in c'.nodes && p != Root
      ensures ParentPath(p).Some? && ParentPath(p).value in c'.nodes
    {
      assert p in c.nodes;
    }
  }

  /** The list clauses of the invariant survive seeding the root. */
  lemma SeedKeepsLists(c: Cache, root: Node)
    requires Wf(c) && Root !in c.nodes && root.path == Root
    ensures var c' := Cache(c.nodes[Root := root], c.children[Root := []]);
            && (forall p :: p in c'.children ==> NoDups(c'.children[p]))
            && (forall p, i :: p in c'.children && 0 <= i < |c'.children[p]| ==> Listable(c', p, c'.children[p][i]))
  {
    var c' := Cache(c.nodes[Root := root], c.children[Root := []]);
    forall p | p in c'.children
      ensures NoDups(c'.children[p])
    {
      if p != Root {
        assert c'.children[p] == c.children[p];
      }
    }
    forall p, i | p in c'.children && 0 <= i < |c'.children[p]|
      ensures Listable(c', p, c'.children[p][i])
    {
      var x := c.children[p][i];
      assert Listable(c, p, x);
      assert x != Root;
      assert c'.nodes[x] == c.nodes[x];
    }
  }

  lemma PopulateRootKeepsWf(c: Cache, reply: Fetch)
    requires Wf(c)
    ensures Wf(PopulateRoot(c, reply).cache)
  {
    if Root !in c.nodes && reply.Fetched? {
      var r := PopulateRoot(c, reply);
      SeedKeepsWf(c, r.cache.nodes[Root]);
      assert r.cache == Cache(c.nodes[Root := r.cache.nodes[Root]], c.children[Root := []]);
    }
  }

  /** The parent path of a tracked path whose deletion the source can handle:
      `getParent` must name a tracked record that has a child list. */
  predicate ParentTracked(c: Cache, path: string)
  {
    ParentPath(path).Some? && ParentPath(path).value in c.nodes && ParentPath(path).value in c.children
  }

  /** `nodeDeleted`: tombstones a tracked record (`exists` false, `stat` null,
      `data` kept), removes its first occurrence from the parent's child list and
      reports the index it had there (-1 when it was not listed). An untracked
      path is ignored. The source dereferences the parent's list without a check. */
  function NodeDeleted(c: Cache, path: string): (r: Step)
    requires path in c.nodes ==> ParentTracked(c, path)
    ensures path !in c.nodes ==> r == Step(c, [], [])
    ensures path in c.nodes ==>
      var pp := ParentPath(path).value;
      && r.cache.nodes == c.nodes[path := c.nodes[path].(live := false, stat := None)]
      && pp in r.cache.children
      && r.cache.children == c.children[pp := r.cache.children[pp]]
      && SplicedOut(c.children[pp], r.cache.children[pp], path, IndexOf(c.children[pp], path))
      && r.events == [Deleted(path, IndexOf(c.children[pp], path))]
      && r.pending == []
  {
    if path !in c.nodes then Step(c, [], [])
    else
      var tomb := SetStat(SetExists(c.nodes[path], false).node, None).node;
      var pp := ParentPath(path).value;
      var siblings := c.children[pp];
      var oldIndex := IndexOf(siblings, path);
      assert SplicedOut(siblings, RemoveFirst(siblings, path), path, oldIndex) by {
        if path in siblings { SpliceBack(siblings, path); }
      }
      Step(Cache(c.nodes[path := tomb], c.children[pp := RemoveFirst(siblings, path)]),
           [Deleted(path, oldIndex)], [])
  }

  /** `after` is `before` with `x` taken out at index `i`, or unchanged (and `i`
      is -1) when `x` was not there. */
  predicate SplicedOut(before: seq<string>, after: seq<string>, x: string, i: int)
  {
    && (x in before ==> 0 <= i <= |after| && before == after[..i] + [x] + after[i..])
    && (x !in before ==> i == -1 && after == before)
  }

  /** In a well-formed cache, deleting a live non-root node takes it out of its
      parent's list for good, keeps the other siblings in order, and the reported
      index is where it stood. */
  lemma NodeDeletedTombstones(c: Cache, path: string)
    requires Wf(c) && IsLive(c, path) && path != Root
    ensures ParentTracked(c, path)
    ensures var r := NodeDeleted(c, path); var pp := ParentPath(path).value;
            && path in r.cache.nodes && !r.cache.nodes[path].live
            && r.cache.nodes[path].data == c.nodes[path].data
            && Equals(r.cache.nodes[path], c.nodes[path])
            && path !in r.cache.children[pp]
            && (forall y :: y in r.cache.children[pp] <==> y in c.children[pp] && y != path)
            && |r.events| == 1 && r.events[0].Deleted?
            && (0 <= r.events[0].oldIndex ==> c.children[pp][r.events[0].oldIndex] == path)
  {
    var pp := ParentPath(path).value;
    RemoveFirstMembers(c.children[pp], path);
  }

  /** A second delivery of the same deletion is not silent: the record stays a
      tombstone and a second `Deleted` event is fired, with index -1. */
  lemma NodeDeletedTwice(c: Cache, path: string)
    requires Wf(c) && IsLive(c, path) && path != Root
    ensures var r := NodeDeleted(c, path);
            ParentTracked(r.cache, path)
            && NodeDeleted(r.cache, path) == Step(r.cache, [Deleted(path, -1)], [])
  {
    var pp := ParentPath(path).value;
    RemoveFirstMembers(c.children[pp], path);
    var r := NodeDeleted(c, path);
    assert r.cache.nodes[path].(live := false, stat := None) == r.cache.nodes[path];
    assert r.cache.nodes[path := r.cache.nodes[path]] == r.cache.nodes;
    assert RemoveFirst(r.cache.children[pp], path) == r.cache.children[pp];
    assert r.cache.children[pp := r.cache.children[pp]] == r.cache.children;
  }

  /** Replacing a tracked record by a tombstone under the same path and taking
      the path out of its parent's list keeps the invariant. */
  lemma TombstoneKeepsWf(c: Cache, path: string, tomb: Node)
    requires Wf(c) && path in c.nodes && ParentTracked(c, path) && tomb.path == path
    ensures var pp := ParentPath(path).value;
            Wf(Cache(c.nodes[path := tomb], c.children[pp := RemoveFirst(c.children[pp], path)]))
  {
    var pp := ParentPath(path).value;
    var c' := Cache(c.nodes[path := tomb], c.children[pp := RemoveFirst(c.children[pp], path)]);
    RemoveFirstMembers(c.children[pp], path);
    assert c'.nodes.Keys == c'.children.Keys;
    forall p | p in c'.nodes
      ensures c'.nodes[p].path == p && Canonical(p)
    {
      assert p in c.nodes;
    }
    forall p | p in c'.nodes && p != Root
      ensures ParentPath(p).Some? && ParentPath(p).value in c'.nodes
    {
      assert p in c.nodes;
    }
    TombstoneKeepsLists(c, path, tomb);
    forall p | p in c'.children
      ensures NoDups(c'.children[p])
    {
      if p != pp { assert c'.children[p] == c.children[p]; }
    }
  }

  /** Every entry left in a list after the tombstoning is still listable. */
  lemma TombstoneKeepsLists(c: Cache, path: string, tomb: Node)
    requires Wf(c) && path in c.nodes && ParentTracked(c, path) && tomb.path == path
    ensures var pp := ParentPath(path).value;
            var c' := Cache(c.nodes[path := tomb], c.children[pp := RemoveFirst(c.children[pp], path)]);
            forall p, i :: p in c'.children && 0 <= i < |c'.children[p]| ==> Listable(c', p, c'.children[p][i])
  {
    var pp := ParentPath(path).value;
    var c' := Cache(c.nodes[path := tomb], c.children[pp := RemoveFirst(c.children[pp], path)]);
    RemoveFirstMembers(c.children[pp], path);
    forall p, i | p in c'.children && 0 <= i < |c'.children[p]|
      ensures Listable(c', p, c'.children[p][i])
    {
      var x := c'.children[p][i];
      if p == pp {
        assert x in c.children[pp] && x != path;
        var k :| 0 <= k < |c.children[pp]| && c.children[pp][k] == x;
        assert Listable(c, pp, c.children[pp][k]);
      } else {
        assert c'.children[p] == c.children[p];
        assert Listable(c, p, c.children[p][i]);
      }
    }
  }

  lemma NodeDeletedKeepsWf(c: Cache, path: string)
    requires Wf(c)
    requires path in c.nodes ==> ParentTracked(c, path)
    ensures Wf(NodeDeleted(c, path).cache)
  {
    if path in c.nodes {
      var pp := ParentPath(path).value;
      var r := NodeDeleted(c, path);
      TombstoneKeepsWf(c, path, r.cache.nodes[path]);
      assert r.cache == Cache(c.nodes[path := r.cache.nodes[path]], c.children[pp := RemoveFirst(c.children[pp], path)]);
    }
  }

  /** `addNode`'s local checks, made before any remote call: a live record at the
      path is rejected, and so is a parent that is missing or tombstoned. */
  datatype AddOutcome = Rejected(fault: Fault) | CreateSent(path: string, data: Option<Bytes>)

  /** The parent named by `getParent(path)` is tracked and live. */
  predicate ParentLive(c: Cache, path: string)
  {
    ParentPath(path).Some? && IsLive(c, ParentPath(path).value)
  }

  function AddNode(c: Cache, path: string, data: Option<Bytes>): (r: AddOutcome)
    ensures r == Rejected(NodeAlreadyExists) <==> IsLive(c, path)
    ensures r == Rejected(ParentMissing) <==> !IsLive(c, path) && !ParentLive(c, path)
    ensures r.CreateSent? <==> !IsLive(c, path) && ParentLive(c, path)
    ensures r.CreateSent? ==> r.path == path && r.data == data
  {
    if path in c.nodes && c.nodes[path].live then Rejected(NodeAlreadyExists)
    else
      var pp := ParentPath(path);
      if pp.None? || pp.value !in c.nodes || !c.nodes[pp.value].live then Rejected(ParentMissing)
      else CreateSent(path, data)
  }

  /** Once a live node is deleted, `addNode` refuses every child path under it:
      for a child path that is not live itself, because the parent is gone. */
  lemma AddUnderDeletedParent(c: Cache, p: string, n: string, d: Option<Bytes>)
    requires Wf(c) && IsLive(c, p) && p != Root && ValidName(n)
    ensures var r := AddNode(NodeDeleted(c, p).cache, FullPath(p, n), d);
            && !r.CreateSent?
            && (r == Rejected(ParentMissing) <==> !IsLive(c, FullPath(p, n)))
  {
    DeletedLiveness(c, p);
    FullPathCanonical(p, n);
    CanonicalShape(p);
    ParentOfFullPath(p, n);
  }

  /** A deleted node can be added again exactly when its parent is live. */
  lemma ReAddAfterDelete(c: Cache, x: string, d: Option<Bytes>)
    requires Wf(c) && IsLive(c, x) && x != Root
    ensures AddNode(NodeDeleted(c, x).cache, x, d)
            == if ParentLive(c, x) then CreateSent(x, d) else Rejected(ParentMissing)
  {
    DeletedLiveness(c, x);
    assert ParentPath(x).value != x by { ParentPathShape(x); }
  }

  /** `nodeDeleted` of a live node makes exactly that node not live. */
  lemma DeletedLiveness(c: Cache, x: string)
    requires Wf(c) && IsLive(c, x) && x != Root
    ensures ParentTracked(c, x)
    ensures forall y :: IsLive(NodeDeleted(c, x).cache, y) <==> IsLive(c, y) && y != x
  {
    assert ParentTracked(c, x);
    var c' := NodeDeleted(c, x).cache;
    assert c'.nodes == c.nodes[x := c.nodes[x].(live := false, stat := None)];
    forall y
      ensures IsLive(c', y) <==> IsLive(c, y) && y != x
    {
      if y != x {
        assert (y in c'.nodes) == (y in c.nodes);
      }
    }
  }

  /** `updateData`: the stat stored after a successful write is the one the
      server returned. A failed write is caught; a successful write to an
      untracked path ends in a NullPointerException. */
  function UpdateData(c: Cache, path: string, reply: Option<Stat>): (r: Result<Cache, Fault>)
    ensures reply.None? ==> r == Ok(c)
    ensures reply.Some? && path !in c.nodes ==> r == Err(NullRecord)
    ensures reply.Some? && path in c.nodes ==>
      r.Ok? && r.value.children == c.children
      && r.value.nodes == c.nodes[path := c.nodes[path].(stat := reply)]
  {
    match reply
    case None => Ok(c)
    case Some(s) =>
      if path !in c.nodes then Err(NullRecord)
      else Ok(Cache(c.nodes[path := SetStat(c.nodes[path], Some(s)).node], c.children))
  }

  /** `nodeDataChanged`: data and stat are copied from the server's reply and one
      `DataChanged` event is fired. A failed read is caught; on an untracked path
      the read is issued and then the record is dereferenced. */
  function NodeDataChanged(c: Cache, path: string, reply: Fetch): (r: Result<Step, Fault>)
    ensures reply.FetchFailed? ==> r == Ok(Step(c, [], []))
    ensures reply.Fetched? && path !in c.nodes ==> r == Err(NullRecord)
    ensures reply.Fetched? && path in c.nodes ==>
      r.Ok? && r.value.cache.children == c.children
      && r.value.cache.nodes == c.nodes[path := c.nodes[path].(data := reply.data, stat := Some(reply.stat))]
      && r.value.events == [DataChanged(path)] && r.value.pending == []
  {
    match reply
    case FetchFailed => Ok(Step(c, [], []))
    case Fetched(data, stat) =>
      if path !in c.nodes then Err(NullRecord)
      else
        var n := SetStat(SetData(c.nodes[path], data).node, Some(stat)).node;
        Ok(Step(Cache(c.nodes[path := n], c.children), [DataChanged(path)], []))
  }

  /** Replacing a tracked record by one under the same path and with the same
      liveness keeps the invariant. */
  lemma RelabelKeepsWf(c: Cache, path: string, n: Node)
    requires Wf(c) && path in c.nodes && n.path == path && n.live == c.nodes[path].live
    ensures Wf(Cache(c.nodes[path := n], c.children))
  {
    var c' := Cache(c.nodes[path := n], c.children);
    forall p, i | p in c'.children && 0 <= i < |c'.children[p]|
      ensures Listable(c', p, c'.children[p][i])
    {
      var x := c.children[p][i];
      assert Listable(c, p, x);
      assert IsLive(c', x);
    }
  }

  lemma StatUpdatesKeepWf(c: Cache, path: string, s: Option<Stat>, f: Fetch)
    requires Wf(c)
    ensures UpdateData(c, path, s).Ok? ==> Wf(UpdateData(c, path, s).value)
    ensures NodeDataChanged(c, path, f).Ok? ==> Wf(NodeDataChanged(c, path, f).value.cache)
  {
    if s.Some? && path in c.nodes {
      RelabelKeepsWf(c, path, c.nodes[path].(stat := s));
    }
    if f.Fetched? && path in c.nodes {
      RelabelKeepsWf(c, path, c.nodes[path].(data := f.data, stat := Some(f.stat)));
    }
  }

  /** `getNode`: the record at a path, if tracked (tombstones included). */
  function GetNode(c: Cache, path: string): (r: Option<Node>)
    ensures r.Some? <==> path in c.nodes
    ensures r.Some? ==> r.value == c.nodes[path]
  {
    if path in c.nodes then Some(c.nodes[path]) else None
  }

  /** `getParent(ZVNode)`: the record at the node's parent path; none for the root. */
  function GetParent(c: Cache, n: Node): (r: Option<Node>)
    ensures n.path == Root ==> r.None?
    ensures r.Some? <==> ParentPath(n.path).Some? && ParentPath(n.path).value in c.nodes
    ensures r.Some? ==> r.value == c.nodes[ParentPath(n.path).value]
  {
    match ParentPath(n.path)
    case None => None
    case Some(pp) => GetNode(c, pp)
  }

  /** In a well-formed cache every tracked non-root record has a tracked parent,
      and the record's path is the full path of that parent and its name. */
  lemma ParentOfTracked(c: Cache, path: string)
    requires Wf(c) && path in c.nodes && path != Root
    ensures GetParent(c, c.nodes[path]).Some?
    ensures FullPath(GetParent(c, c.nodes[path]).value.path, NameOf(path)) == path
  {
    SplitPath(path);
  }

  /** The live entries of a child list, in stored order. */
  function LiveOnly(c: Cache, s: seq<string>): (r: seq<string>)
    ensures |r| <= |s|
    ensures forall x :: x in r <==> x in s && IsLive(c, x)
  {
    if |s| == 0 then []
    else
      var init := LiveOnly(c, s[..|s| - 1]);
      var last := s[|s| - 1];
      assert s == s[..|s| - 1] + [last];
      if IsLive(c, last) then init + [last] else init
  }

  lemma LiveOnlyKeepsNoDups(c: Cache, s: seq<string>)
    requires NoDups(s)
    ensures NoDups(LiveOnly(c, s))
  {
    if |s| > 0 {
      var init := s[..|s| - 1];
      assert NoDups(init);
      LiveOnlyKeepsNoDups(c, init);
      assert s[|s| - 1] !in init;
    }
  }

  /** Filtering distributes over concatenation, so the live entries keep their
      stored order. */
  lemma {:induction false} LiveOnlyAppend(c: Cache, a: seq<string>, b: seq<string>)
    ensures LiveOnly(c, a + b) == LiveOnly(c, a) + LiveOnly(c, b)
    decreases |b|
  {
    if |b| == 0 {
      assert a + b == a;
    } else {
      var init := b[..|b| - 1];
      assert (a + b)[..|a + b| - 1] == a + init;
      assert (a + b)[|a + b| - 1] == b[|b| - 1];
      LiveOnlyAppend(c, a, init);
    }
  }

  /** A list whose entries are all live is its own live view. */
  lemma {:induction false} LiveOnlyAllLive(c: Cache, s: seq<string>)
    requires forall k :: 0 <= k < |s| ==> IsLive(c, s[k])
    ensures LiveOnly(c, s) == s
  {
    if |s| > 0 {
      LiveOnlyAllLive(c, s[..|s| - 1]);
      assert s == s[..|s| - 1] + [s[|s| - 1]];
    }
  }

  /** In a well-formed cache every listed child is live, so the live view of a
      list is the whole list. */
  lemma WfListsAreLive(c: Cache, parent: string)
    requires Wf(c) && parent in c.children
    ensures LiveOnly(c, c.children[parent]) == c.children[parent]
  {
    var s := c.children[parent];
    assert forall k :: 0 <= k < |s| ==> Listable(c, parent, s[k]);
    LiveOnlyAllLive(c, s);
  }

  /** What `getChildren` answers: the live entries of the parent's list, or the
      NullPointerException the source raises for a parent without a list. */
  function ChildrenOf(c: Cache, parent: string): (r: Result<seq<string>, Fault>)
    ensures r.Ok? <==> parent in c.children
    ensures r.Err? ==> r.error == NullRecord
    ensures r.Ok? ==> forall x :: x in r.value <==> x in c.children[parent] && IsLive(c, x)
  {
    if parent in c.children then Ok(LiveOnly(c, c.children[parent])) else Err(NullRecord)
  }

  /** `getChildren`: copies the live entries of the parent's list, in order. The
      source iterates the parent's list without a check, so a parent without
      a list ends in a NullPointerException. */
  method GetChildren(c: Cache, parent: string) returns (r: Result<seq<string>, Fault>)
    ensures parent !in c.children ==> r == Err(NullRecord)
    ensures parent in c.children ==> r == Ok(LiveOnly(c, c.children[parent]))
    ensures r == ChildrenOf(c, parent)
  {
    if parent !in c.children {
      return Err(NullRecord);
    }
    var list := c.children[parent];
    var live: seq<string> := [];
    var i := 0;
    while i < |list|
      invariant 0 <= i <= |list|
      invariant live == LiveOnly(c, list[..i])
    {
      assert list[..i + 1][..i] == list[..i];
      if list[i] in c.nodes && c.nodes[list[i]].live {
        live := live + [list[i]];
      }
      i := i + 1;
    }
    assert list[..|list|] == list;
    return Ok(live);
  }
}
