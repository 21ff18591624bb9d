/** `ZVTreeModel`: the tree view over the cache. A node's tree path walks from
    the root record down through one record per non-empty '/'-separated segment
    of its path; the child queries are views over the model's live-children
    list. The view's arguments are typed here, so the source's `instanceof`
    checks cannot fail and are not modelled. */
module TreeView {
  import opened Base
  import opened Lists
  import opened Paths
  import opened ZNode
  import opened NodeCache
  import opened Population

  /** The cumulative prefix "/s1/.../sk" of the first `k` segments. */
  function Prefix(segs: seq<string>, k: nat): string
    requires k <= |segs|
  {
    PathOf(segs[..k])
  }

  /** The records at the cumulative prefixes "/s1", "/s1/s2", ..., "/s1/.../sk"
      of the segments, or nothing when one of them is not tracked. */
  function Chain(c: Cache, segs: seq<string>): (r: Option<seq<Node>>)
    ensures r.Some? <==> forall k :: 0 < k <= |segs| ==> Prefix(segs, k) in c.nodes
    ensures r.Some? ==> |r.value| == |segs|
    ensures r.Some? ==> forall k :: 0 <= k < |segs| ==> r.value[k] == c.nodes[Prefix(segs, k + 1)]
  {
    if |segs| == 0 then Some([])
    else
      var init := segs[..|segs| - 1];
      assert forall k :: 0 < k <= |init| ==> Prefix(init, k) == Prefix(segs, k) by {
        forall k | 0 < k <= |init| ensures Prefix(init, k) == Prefix(segs, k) {
          assert init[..k] == segs[..k];
        }
      }
      assert Prefix(segs, |segs|) == PathOf(segs) by {
        assert segs[..|segs|] == segs;
      }
      match Chain(c, init)
      case None => None
      case Some(nodes) =>
        if PathOf(segs) in c.nodes then Some(nodes + [c.nodes[PathOf(segs)]]) else None
  }

  /** One more segment extends the chain by the record at the longer prefix. */
  lemma ChainSnoc(c: Cache, segs: seq<string>, n: string)
    ensures Chain(c, segs + [n]) ==
      match Chain(c, segs)
      case None => None
      case Some(nodes) =>
        if PathOf(segs + [n]) in c.nodes then Some(nodes + [c.nodes[PathOf(segs + [n])]]) else None
  {
    assert (segs + [n])[..|segs + [n]| - 1] == segs;
  }

  /** A chain broken on some prefix of the segments is broken for all of them. */
  lemma ChainBroken(c: Cache, segs: seq<string>, j: nat)
    requires j <= |segs| && Chain(c, segs[..j]).None?
    ensures Chain(c, segs).None?
  {
    var k :| 0 < k <= j && Prefix(segs[..j], k) !in c.nodes;
    assert segs[..j][..k] == segs[..k];
    assert Prefix(segs, k) !in c.nodes;
  }

  /** What `getTreePath` builds for a node at `path`: the root record, then the
      records at the cumulative prefixes of the path's tokens. The root record
      missing is the IllegalArgumentException of `new TreePath(null)`; a prefix
      missing is the NullPointerException of `pathByAddingChild(null)`. */
  function TreePathOf(c: Cache, path: string): (r: Result<seq<Node>, Fault>)
    ensures Root !in c.nodes ==> r == Err(NoRootRecord)
    ensures r.Ok? ==> |r.value| == 1 + |Tokens(path)| && r.value[0] == c.nodes[Root]
    ensures r.Ok? <==> Root in c.nodes && Chain(c, Tokens(path)).Some?
  {
    if Root !in c.nodes then Err(NoRootRecord)
    else match Chain(c, Tokens(path))
      case None => Err(NullRecord)
      case Some(nodes) => Ok([c.nodes[Root]] + nodes)
  }

  /** `getTreePath`, as the source's loop writes it: tokenize the path, extend the
      current prefix by "/" and the next token, and append the record found
      there. */
  method GetTreePath(c: Cache, n: Node) returns (r: Result<seq<Node>, Fault>)
    ensures r == TreePathOf(c, n.path)
  {
    if Root !in c.nodes {
      return Err(NoRootRecord);
    }
    var segs := Tokens(n.path);
    var tree := [c.nodes[Root]];
    var current := "";
    var i := 0;
    assert segs[..0] == [] && tree[1..] == [];
    while i < |segs|
      invariant 0 <= i <= |segs|
      invariant |tree| == i + 1 && tree[0] == c.nodes[Root]
      invariant current == PathOf(segs[..i])
      invariant Chain(c, segs[..i]) == Some(tree[1..])
    {
      assert segs[..i + 1] == segs[..i] + [segs[i]];
      PathOfSnoc(segs[..i], segs[i]);
      ChainSnoc(c, segs[..i], segs[i]);
      current := current + "/" + segs[i];
      if current !in c.nodes {
        ChainBroken(c, segs, i + 1);
        return Err(NullRecord);
      }
      assert (tree + [c.nodes[current]])[1..] == tree[1..] + [c.nodes[current]];
      tree := tree + [c.nodes[current]];
      i := i + 1;
    }
    assert segs[..i] == segs;
    assert tree == [c.nodes[Root]] + tree[1..];
    return Ok(tree);
  }

  /** The tree path of a tracked canonical non-root path is the
      tree path of its parent with the record itself appended. */
  lemma TreePathStep(c: Cache, p: string)
    requires Canonical(p) && p in c.nodes && p != Root
    requires TreePathOf(c, ParentPath(p).value).Ok?
    ensures TreePathOf(c, p) == Ok(TreePathOf(c, ParentPath(p).value).value + [c.nodes[p]])
  {
    var segs := Tokens(p);
    var pp := ParentPath(p).value;
    assert Tokens(pp) == segs[..|segs| - 1] && |segs| > 0 by {
      ParentCanonical(p);
    }
    assert PathOf(segs) == p;
    var init := segs[..|segs| - 1];
    assert segs == init + [segs[|segs| - 1]];
    ChainSnoc(c, init, segs[|segs| - 1]);
    var before := Chain(c, init).value;
    assert Chain(c, segs) == Some(before + [c.nodes[p]]);
    assert TreePathOf(c, pp).value == [c.nodes[Root]] + before;
    assert TreePathOf(c, p).value == [c.nodes[Root]] + (before + [c.nodes[p]]);
    assert [c.nodes[Root]] + (before + [c.nodes[p]]) == ([c.nodes[Root]] + before) + [c.nodes[p]];
  }

  /** In a well-formed cache every tracked record has a tree path: it has one
      entry per token plus the root, ends at the record itself, and each entry
      is the parent of the next. */
  lemma {:induction false} TreePathOfTracked(c: Cache, p: string)
    requires Wf(c) && p in c.nodes
    ensures TreePathOf(c, p).Ok?
    ensures var tp := TreePathOf(c, p).value;
            |tp| == 1 + |Tokens(p)| && tp[|tp| - 1] == c.nodes[p]
            && forall k :: 0 <= k < |tp| - 1 ==> ParentPath(tp[k + 1].path) == Some(tp[k].path)
    decreases |Tokens(p)|
  {
    if p == Root {
      assert Tokens(Root) == Tokens(Root[1..]);
    } else {
      ParentCanonical(p);
      var pp := ParentPath(p).value;
      TreePathOfTracked(c, pp);
      TreePathStep(c, p);
      var tq := TreePathOf(c, pp).value;
      var tp := TreePathOf(c, p).value;
      assert tp == tq + [c.nodes[p]];
      assert c.nodes[p].path == p && c.nodes[pp].path == pp;
      forall k | 0 <= k < |tp| - 1
        ensures ParentPath(tp[k + 1].path) == Some(tp[k].path)
      {
        if k < |tq| - 1 {
          assert tp[k] == tq[k] && tp[k + 1] == tq[k + 1];
        }
      }
    }
  }

  /** `getRoot`: the record at the root path, if any. */
  function GetRoot(c: Cache): (r: Option<Node>)
    ensures r.Some? <==> Root in c.nodes
    ensures r.Some? ==> r.value == c.nodes[Root] && r.value == GetNode(c, Root).value
  {
    GetNode(c, Root)
  }

  /** `getChild`: the `index`-th live child of `parent`; an index outside the
      list is the list's IndexOutOfBoundsException. */
  function GetChild(c: Cache, parent: Node, index: int): (r: Result<Node, Fault>)
    ensures ChildrenOf(c, parent.path).Err? ==> r == Err(NullRecord)
    ensures r.Ok? <==> ChildrenOf(c, parent.path).Ok? && 0 <= index < |ChildrenOf(c, parent.path).value|
    ensures r.Ok? ==> var x := ChildrenOf(c, parent.path).value[index];
                      IsLive(c, x) && r.value == c.nodes[x]
  {
    match ChildrenOf(c, parent.path)
    case Err(f) => Err(f)
    case Ok(live) =>
      if 0 <= index < |live| then
        assert live[index] in live;
        Ok(c.nodes[live[index]])
      else Err(IndexOutOfRange)
  }

  /** `getChildCount`: the number of live children. */
  function GetChildCount(c: Cache, parent: Node): (r: Result<nat, Fault>)
    ensures r.Ok? <==> parent.path in c.children
    ensures r.Ok? ==> r.value <= |c.children[parent.path]|
    ensures r.Ok? ==> forall i :: 0 <= i < r.value <==> GetChild(c, parent, i).Ok?
  {
    match ChildrenOf(c, parent.path)
    case Err(f) => Err(f)
    case Ok(live) => Ok(|live|)
  }

  /** `isLeaf`: no live children. */
  function IsLeaf(c: Cache, node: Node): (r: Result<bool, Fault>)
    ensures r.Ok? <==> node.path in c.children
    ensures r.Ok? ==> (r.value <==> forall x :: x in c.children[node.path] ==> !IsLive(c, x))
  {
    match ChildrenOf(c, node.path)
    case Err(f) => Err(f)
    case Ok(live) =>
      assert live != [] ==> live[0] in live;
      Ok(|live| == 0)
  }

  /** `getIndexOfChild`: the position of `child` among the live children, or -1;
      records compare by path. */
  function GetIndexOfChild(c: Cache, parent: Node, child: Node): (r: Result<int, Fault>)
    ensures r.Ok? <==> parent.path in c.children
    ensures r.Ok? ==> -1 <= r.value < |c.children[parent.path]|
    ensures r.Ok? ==> (r.value == -1 <==> !(child.path in c.children[parent.path] && IsLive(c, child.path)))
  {
    match ChildrenOf(c, parent.path)
    case Err(f) => Err(f)
    case Ok(live) => Ok(IndexOf(live, child.path))
  }

  /** A leaf is exactly a node with no children to count. */
  lemma LeafIffNoChildren(c: Cache, node: Node)
    ensures IsLeaf(c, node).Ok? <==> GetChildCount(c, node).Ok?
    ensures IsLeaf(c, node).Ok? ==> (IsLeaf(c, node).value <==> GetChildCount(c, node).value == 0)
  {
  }

  /** The index reported for a child leads back to a record equal to it. */
  lemma IndexThenChild(c: Cache, parent: Node, child: Node)
    requires Wf(c)
    requires GetIndexOfChild(c, parent, child).Ok?
    requires GetIndexOfChild(c, parent, child).value >= 0
    ensures var i := GetIndexOfChild(c, parent, child).value;
            GetChild(c, parent, i).Ok? && Equals(GetChild(c, parent, i).value, child)
  {
    var live := ChildrenOf(c, parent.path).value;
    var i := IndexOf(live, child.path);
    assert live[i] in live;
    assert c.nodes[live[i]].path == live[i];
  }

  /** In a well-formed cache the child at an index reports that index back. */
  lemma ChildThenIndex(c: Cache, parent: Node, i: int)
    requires Wf(c)
    requires GetChild(c, parent, i).Ok?
    ensures GetIndexOfChild(c, parent, GetChild(c, parent, i).value) == Ok(i)
  {
    var list := c.children[parent.path];
    var live := LiveOnly(c, list);
    assert NoDups(list);
    LiveOnlyKeepsNoDups(c, list);
    var x := live[i];
    assert c.nodes[x].path == x;
    var j := IndexOf(live, x);
    assert live[j] == x;
  }

  /** The removal the `nodeDeleted` listener forwards: the tree path of the
      deleted node without its last entry (none when that path has a single
      entry, as `getParentPath` answers), the index the model reported, and the
      node. */
  datatype Removal = Removal(parentPath: Option<seq<Node>>, index: int, node: Node)

  /** The `nodeDeleted` listener: builds the removal from the node's tree path,
      computed on the cache after the deletion. */
  function RemovalNotice(c: Cache, n: Node, oldIndex: int): (r: Result<Removal, Fault>)
    ensures r.Ok? <==> TreePathOf(c, n.path).Ok?
    ensures r.Ok? ==> r.value.index == oldIndex && r.value.node == n
    ensures r.Ok? ==> var tp := TreePathOf(c, n.path).value;
                      (r.value.parentPath.Some? <==> |tp| > 1)
                      && (r.value.parentPath.Some? ==> r.value.parentPath.value + [tp[|tp| - 1]] == tp)
  {
    match TreePathOf(c, n.path)
    case Err(f) => Err(f)
    case Ok(tp) =>
      assert tp == tp[..|tp| - 1] + [tp[|tp| - 1]];
      Ok(Removal(if |tp| > 1 then Some(tp[..|tp| - 1]) else None, oldIndex, n))
  }

  /** In a well-formed cache the removal built for a tracked non-root node is
      raised on the tree path of its parent. */
  lemma RemovalUnderParent(c: Cache, path: string, oldIndex: int)
    requires Wf(c) && path in c.nodes && path != Root
    ensures ParentPath(path).Some? && TreePathOf(c, ParentPath(path).value).Ok?
    ensures RemovalNotice(c, c.nodes[path], oldIndex)
            == Ok(Removal(Some(TreePathOf(c, ParentPath(path).value).value), oldIndex, c.nodes[path]))
  {
    var pp := ParentPath(path).value;
    TreePathUnderParent(c, path);
    assert c.nodes[path].path == path;
    var tp := TreePathOf(c, path).value;
    assert tp[..|tp| - 1] == TreePathOf(c, pp).value;
  }

  /** In a well-formed cache a tracked non-root node's tree path is its
      parent's tree path followed by its own record. */
  lemma TreePathUnderParent(c: Cache, path: string)
    requires Wf(c) && path in c.nodes && path != Root
    ensures ParentPath(path).Some? && TreePathOf(c, ParentPath(path).value).Ok?
    ensures TreePathOf(c, path) == Ok(TreePathOf(c, ParentPath(path).value).value + [c.nodes[path]])
  {
    TreePathOfTracked(c, ParentPath(path).value);
    TreePathStep(c, path);
  }

  /** In a well-formed cache the position of a live child in its parent's raw
      list (-1 when it is not listed, as after its parent was revived with a
      fresh list) is the position the view shows it at. */
  lemma ListIndexIsViewIndex(c: Cache, path: string)
    requires Wf(c) && IsLive(c, path) && path != Root
    ensures ParentPath(path).Some? && ParentPath(path).value in c.nodes
    ensures var pp := ParentPath(path).value;
            var i := IndexOf(c.children[pp], path);
            && GetIndexOfChild(c, c.nodes[pp], c.nodes[path]) == Ok(i)
            && (i >= 0 ==> GetChild(c, c.nodes[pp], i) == Ok(c.nodes[path]))
  {
    var pp := ParentPath(path).value;
    var list := c.children[pp];
    WfListsAreLive(c, pp);
    assert c.nodes[pp].path == pp && c.nodes[path].path == path;
    var i := IndexOf(list, path);
    if i >= 0 {
      assert list[i] == path;
    }
  }

  /** Deleting a live non-root node of a well-formed cache: the view is told to
      remove, under the tree path of the node's parent, the node at the index at
      which the view showed it just before the deletion. */
  lemma DeletionNoticeMatchesView(c: Cache, path: string)
    requires Wf(c) && IsLive(c, path) && path != Root
    ensures ParentPath(path).Some? && ParentPath(path).value in c.nodes
    ensures var pp := ParentPath(path).value;
            var r := NodeDeleted(c, path);
            var notice := RemovalNotice(r.cache, r.cache.nodes[path], r.events[0].oldIndex);
            && TreePathOf(r.cache, pp).Ok?
            && notice.Ok?
            && notice.value.parentPath == Some(TreePathOf(r.cache, pp).value)
            && GetIndexOfChild(c, c.nodes[pp], c.nodes[path]) == Ok(notice.value.index)
            && (notice.value.index >= 0 ==> GetChild(c, c.nodes[pp], notice.value.index) == Ok(c.nodes[path]))
  {
    var pp := ParentPath(path).value;
    var r := NodeDeleted(c, path);
    NodeDeletedTombstones(c, path);
    NodeDeletedKeepsWf(c, path);
    RemovalUnderParent(r.cache, path, r.events[0].oldIndex);
    ListIndexIsViewIndex(c, path);
  }

  /** What the `nodeCreated` listener forwards to the tree's listeners: a
      structure change rooted at the new root, or an insertion under the tree
      path of the new node's parent, at the index the view shows it at. */
  datatype Insertion = StructureChanged(root: Node) | NodesInserted(parentPath: seq<Node>, index: int, node: Node)

  /** The `nodeCreated` listener, run on the cache as it is when the event is
      fired. The root is recognised by comparing with `getRoot`; for any other
      node every exception (a missing record on the tree path, a tree path
      without a parent, a parent without a child list) is caught and nothing
      is forwarded. */
  function InsertionNotice(c: Cache, n: Node): (r: Option<Insertion>)
    ensures r.Some? && r.value.StructureChanged? <==> GetRoot(c) == Some(n)
    ensures r.Some? && r.value.StructureChanged? ==> r.value.root == n
    ensures r.Some? && r.value.NodesInserted? ==>
      && TreePathOf(c, n.path).Ok?
      && |r.value.parentPath| > 0
      && r.value.parentPath + [TreePathOf(c, n.path).value[|TreePathOf(c, n.path).value| - 1]] == TreePathOf(c, n.path).value
      && r.value.node == n
      && GetIndexOfChild(c, r.value.parentPath[|r.value.parentPath| - 1], n) == Ok(r.value.index)
    ensures r.None? ==>
      GetRoot(c) != Some(n)
      && (TreePathOf(c, n.path).Ok? ==>
            var tp := TreePathOf(c, n.path).value;
            |tp| <= 1 || GetIndexOfChild(c, tp[|tp| - 2], n).Err?)
  {
    if GetRoot(c) == Some(n) then Some(StructureChanged(n))
    else match TreePathOf(c, n.path)
      case Err(_) => None
      case Ok(tp) =>
        if |tp| <= 1 then None
        else
          var up := tp[..|tp| - 1];
          assert up + [tp[|tp| - 1]] == tp;
          match GetIndexOfChild(c, up[|up| - 1], n)
          case Err(_) => None
          case Ok(i) => Some(NodesInserted(up, i, n))
  }

  /** A non-root record whose tree path runs through `up` is announced under
      `up` at the index the view gives it there. */
  lemma InsertionUnder(c: Cache, n: Node, up: seq<Node>, i: int)
    requires GetRoot(c) != Some(n) && |up| > 0
    requires TreePathOf(c, n.path) == Ok(up + [n])
    requires GetIndexOfChild(c, up[|up| - 1], n) == Ok(i)
    ensures InsertionNotice(c, n) == Some(NodesInserted(up, i, n))
  {
    var tp := up + [n];
    assert tp[..|tp| - 1] == up;
  }

  /** Seeding the root tells the view that the whole structure changed, rooted
      at the new root record. */
  lemma RootCreationNotice(c: Cache, reply: Fetch)
    requires Root !in c.nodes && reply.Fetched?
    ensures var r := PopulateRoot(c, reply);
            r.events == [Created(Root)]
            && InsertionNotice(r.cache, r.cache.nodes[Root]) == Some(StructureChanged(r.cache.nodes[Root]))
  {
  }

  /** After a listing callback inserts a child into a well-formed cache, the
      cache is still well formed and the view shows the child as the parent's
      last child. */
  lemma InsertedChildShown(c: Cache, parent: string, name: string, n: Node)
    requires Wf(c) && parent in c.nodes && ValidName(name)
    requires !IsLive(c, FullPath(parent, name))
    requires n.path == FullPath(parent, name) && n.live
    ensures var c' := Inserted(c, parent, FullPath(parent, name), n);
            var i := |c.children[parent]|;
            && Wf(c')
            && FullPath(parent, name) != Root
            && ParentPath(FullPath(parent, name)) == Some(parent)
            && c'.nodes[FullPath(parent, name)] == n
            && GetIndexOfChild(c', c'.nodes[parent], n) == Ok(i)
            && GetChild(c', c'.nodes[parent], i) == Ok(n)
  {
    var cp := FullPath(parent, name);
    var c' := Inserted(c, parent, cp, n);
    var before := c.children[parent];
    InsertChildKeepsWf(c, parent, name, n);
    assert cp != parent && ParentPath(cp) == Some(parent) && cp != Root by {
      FullPathCanonical(parent, name);
      ParentOfFullPath(parent, name) by { CanonicalShape(parent); }
    }
    forall k | 0 <= k < |before|
      ensures before[k] != cp
    {
      assert Listable(c, parent, before[k]);
    }
    WfListsAreLive(c', parent);
    assert c'.children[parent] == before + [cp];
    assert (before + [cp])[|before|] == cp;
    assert IndexOf(before + [cp], cp) == |before|;
    assert c'.nodes[parent].path == parent;
  }

  /** A child inserted by a listing callback into a well-formed cache: the
      view is told about an insertion under the tree path of the parent, at
      the last position of the parent's children, where it now shows the new
      record. */
  lemma CreationNoticeMatchesView(c: Cache, parent: string, name: string, n: Node)
    requires Wf(c) && parent in c.nodes && ValidName(name)
    requires !IsLive(c, FullPath(parent, name))
    requires n.path == FullPath(parent, name) && n.live
    ensures var c' := Inserted(c, parent, FullPath(parent, name), n);
            var i := |c.children[parent]|;
            && TreePathOf(c', parent).Ok?
            && InsertionNotice(c', n) == Some(NodesInserted(TreePathOf(c', parent).value, i, n))
            && GetChild(c', c'.nodes[parent], i) == Ok(n)
  {
    var cp := FullPath(parent, name);
    var c' := Inserted(c, parent, cp, n);
    InsertedChildShown(c, parent, name, n);
    TreePathUnderParent(c', cp);
    var up := TreePathOf(c', parent).value;
    assert |up| > 0 && up[|up| - 1] == c'.nodes[parent] by {
      TreePathOfTracked(c', parent);
    }
    assert GetRoot(c') != Some(n) by {
      assert Root in c'.nodes && c'.nodes[Root].path == Root;
    }
    InsertionUnder(c', n, up, |c.children[parent]|);
  }
}
