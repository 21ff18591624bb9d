/** `deleteNode` and `deleteNodes`: removing a node and everything below it
    from the coordination service, children first. The service is an abstract
    store mapping every existing path to the names its children listing
    returns; the cache is only read, to turn each child path into the record
    the recursion is called on. */
module Deletion {
  import opened Base
  import opened Lists
  import opened Paths
  import opened ZNode
  import opened NodeCache

  /** The service's tree: every existing path with its children's names, in the
      order a listing returns them. */
  datatype Store = Store(kids: map<string, seq<string>>)

  /** The outcome of a deletion: the store afterwards, the paths removed, in
      order, and whether the call ended early: a NullPointerException on an
      untracked child, or a child record whose path is no longer than its
      parent's, on which the source would recurse without end or act on an
      unrelated path. */
  datatype Outcome = Outcome(store: Store, deleted: seq<string>, aborted: bool)

  /** The child path `deleteNode` builds: no separator after a path that
      already ends in '/'. */
  function ChildPathOf(path: string, name: string): (r: string)
    ensures path <= r && |r| >= |path| + |name|
  {
    path + (if |path| > 0 && path[|path| - 1] == '/' then "" else "/") + name
  }

  /** On the paths the cache builds it agrees with `getFullPath`. */
  lemma ChildPathIsFullPath(path: string, name: string)
    requires path == Root || (|path| > 0 && path[|path| - 1] != '/')
    ensures ChildPathOf(path, name) == FullPath(path, name)
  {
  }

  /** `delete(path, -1)`: refused (a KeeperException, caught by the caller)
      for the root, which the service never deletes, and when the path does
      not exist or still has children; otherwise the path disappears, and so
      does its name from its parent's listing. */
  function Remove(st: Store, path: string): (r: Option<Store>)
    ensures r.Some? <==> path != Root && path in st.kids && st.kids[path] == []
    ensures r.Some? ==> r.value.kids.Keys == st.kids.Keys - {path}
  {
    if path != Root && path in st.kids && st.kids[path] == [] then
      var rest := st.kids - {path};
      var pp := ParentPath(path);
      if pp.Some? && pp.value in rest then
        Some(Store(rest[pp.value := RemoveFirst(rest[pp.value], NameOf(path))]))
      else Some(Store(rest))
    else None
  }

  /** The existing paths at least `n` characters long. */
  function Above(st: Store, n: int): set<string>
  {
    set k | k in st.kids && |k| >= n
  }

  /** Every cached record sits under its own path. */
  predicate RecordsAtKeys(c: Cache)
  {
    forall k :: k in c.nodes ==> c.nodes[k].path == k
  }

  /** `deleteNode(node)` on the record at `path`: list the children (a missing
      path is a caught KeeperException and ends the call), delete each child
      recursively, then delete the path itself (a refusal is caught too). */
  function DeleteNode(c: Cache, st: Store, path: string): (r: Outcome)
    ensures r.store.kids.Keys <= st.kids.Keys
    ensures forall x :: x in r.store.kids <==> x in st.kids && x !in r.deleted
    ensures forall x :: x in r.deleted ==> x in st.kids
    ensures NoDups(r.deleted)
    ensures path !in st.kids ==> r == Outcome(st, [], false)
    ensures path in r.deleted ==> r.deleted[|r.deleted| - 1] == path
    ensures forall x :: x in r.deleted ==> |x| >= |path|
    ensures RecordsAtKeys(c) ==> forall x :: x in r.deleted ==> path <= x
    decreases Above(st, |path|), 0
  {
    if path !in st.kids then Outcome(st, [], false)
    else
      assert path in Above(st, |path|) && path !in Above(st, |path| + 1);
      var sub := DeleteChildren(c, st, path, st.kids[path]);
      if sub.aborted then sub
      else match Remove(sub.store, path)
        case None => sub
        case Some(after) =>
          assert path !in sub.deleted;
          Outcome(after, sub.deleted + [path], false)
  }

  /** The loop over a listing of the children of `path`: each name's record is
      looked up in the cache and deleted; the first exception ends the loop and
      escapes. */
  function DeleteChildren(c: Cache, st: Store, path: string, names: seq<string>): (r: Outcome)
    ensures r.store.kids.Keys <= st.kids.Keys
    ensures forall x :: x in r.store.kids <==> x in st.kids && x !in r.deleted
    ensures forall x :: x in r.deleted ==> x in st.kids
    ensures NoDups(r.deleted)
    ensures forall x :: x in r.deleted ==> |x| > |path|
    ensures RecordsAtKeys(c) ==> forall x :: x in r.deleted ==> path <= x
    decreases Above(st, |path| + 1), 1, |names|
  {
    if |names| == 0 then Outcome(st, [], false)
    else
      var cp := ChildPathOf(path, names[0]);
      if cp !in c.nodes then Outcome(st, [], true)
      else
        var next := c.nodes[cp].path;
        if |next| <= |path| then Outcome(st, [], true)
        else
          assert Above(st, |next|) <= Above(st, |path| + 1);
          var first := DeleteNode(c, st, next);
          if first.aborted then first
          else
            assert Above(first.store, |path| + 1) <= Above(st, |path| + 1);
            var rest := DeleteChildren(c, first.store, path, names[1..]);
            JoinDisjoint(first.deleted, rest.deleted);
            Outcome(rest.store, first.deleted + rest.deleted, rest.aborted)
  }

  /** `deleteNodes`: the nodes deleted one after the other; an exception escaping
      one deletion ends the whole call. */
  function DeleteNodes(c: Cache, st: Store, paths: seq<string>): (r: Outcome)
    ensures r.store.kids.Keys <= st.kids.Keys
    ensures forall x :: x in r.store.kids <==> x in st.kids && x !in r.deleted
    ensures forall x :: x in r.deleted ==> x in st.kids
    ensures NoDups(r.deleted)
    decreases |paths|
  {
    if |paths| == 0 then Outcome(st, [], false)
    else
      var first := DeleteNode(c, st, paths[0]);
      if first.aborted then first
      else
        var rest := DeleteNodes(c, first.store, paths[1..]);
        JoinDisjoint(first.deleted, rest.deleted);
        Outcome(rest.store, first.deleted + rest.deleted, rest.aborted)
  }

  /** A node without children is deleted on its own; the root stays. */
  lemma DeleteLeaf(c: Cache, st: Store, path: string)
    requires path in st.kids && st.kids[path] == []
    ensures DeleteNode(c, st, path) ==
            if path == Root then Outcome(st, [], false)
            else Outcome(Remove(st, path).value, [path], false)
  {
  }
}
