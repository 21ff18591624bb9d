/** What `deleteNode` achieves on a well-formed store whose paths the cache
    all tracks: it removes exactly the subtree of the node, each node after
    everything below it, without an escaping exception; the store afterwards is
    the original with the subtree cut off and the node's name dropped from its
    parent's listing. */
module Subtree {
  import opened Base
  import opened Lists
  import opened Paths
  import opened NodeCache
  import opened Deletion

  /** `x` lies in the subtree rooted at `p`: `p`'s segments start `x`'s. */
  predicate Below(x: string, p: string)
  {
    Tokens(p) <= Tokens(x)
  }

  /** A store shaped like the service's tree: canonical paths, every non-root
      path listed by its existing parent, every listed name a valid name whose
      path exists, and no name listed twice. */
  predicate StoreWf(st: Store)
  {
    && (forall k :: k in st.kids ==> Canonical(k))
    && (forall k :: k in st.kids && k != Root ==>
          ParentPath(k).Some? && ParentPath(k).value in st.kids
          && NameOf(k) in st.kids[ParentPath(k).value])
    && (forall k, i :: k in st.kids && 0 <= i < |st.kids[k]| ==>
          ValidName(st.kids[k][i]) && FullPath(k, st.kids[k][i]) in st.kids)
    && (forall k :: k in st.kids ==> NoDups(st.kids[k]))
  }

  /** The cache tracks every existing path, each record under its own path. */
  predicate Mirrors(c: Cache, st: Store)
  {
    forall k :: k in st.kids ==> k in c.nodes && c.nodes[k].path == k
  }

  /** The store with the subtree of `p` cut off and `p`'s name dropped from its
      parent's listing. */
  function Pruned(st: Store, p: string): Store
  {
    Store(map k | k in st.kids && !Below(k, p) ::
      if ParentPath(p) == Some(k) then RemoveFirst(st.kids[k], NameOf(p)) else st.kids[k])
  }

  /** The store with everything strictly below `p` cut off and `p`'s listing
      emptied. */
  function Emptied(st: Store, p: string): Store
  {
    Store(map k | k in st.kids && (k == p || !Below(k, p)) :: if k == p then [] else st.kids[k])
  }

  /** The store after deleting the subtree of `p`: cut off, except that the
      root, which the service never deletes, stays with an empty listing. */
  function Cut(st: Store, p: string): Store
  {
    if p == Root then Emptied(st, Root) else Pruned(st, p)
  }

  /** Canonical paths with the same segments are the same path. */
  lemma CanonicalInjective(a: string, b: string)
    requires Canonical(a) && Canonical(b) && Tokens(a) == Tokens(b)
    ensures a == b
  {
    CanonicalIsAsPath(a);
    CanonicalIsAsPath(b);
  }

  /** The root lies below no path but itself. */
  lemma RootBelowOnlyRoot(x: string, p: string)
    requires Canonical(p)
    ensures x == Root && Below(x, p) ==> p == Root
  {
    assert Tokens(Root) == Tokens(Root[1..]);
    if x == Root && Below(x, p) {
      CanonicalInjective(Root, p);
    }
  }

  /** A parent does not lie below its child. */
  lemma ParentNotBelow(p: string)
    requires Canonical(p) && p != Root
    ensures ParentPath(p).Some? && !Below(ParentPath(p).value, p)
  {
    ParentCanonical(p);
  }

  /** A path whose parent lies below `p` lies below `p` too. */
  lemma BelowViaParent(k: string, p: string)
    requires Canonical(k) && k != Root
    requires Below(ParentPath(k).value, p)
    ensures Below(k, p)
  {
    ParentCanonical(k);
    var t := Tokens(k);
    assert Tokens(ParentPath(k).value) == t[..|t| - 1];
  }

  /** A child path lies below `p` only when its parent does or it is `p` itself. */
  lemma ChildBelow(k: string, m: string, p: string)
    requires Canonical(k) && ValidName(m) && Canonical(p)
    requires Below(FullPath(k, m), p)
    ensures Below(k, p) || p == FullPath(k, m)
  {
    FullPathCanonical(k, m);
    var tk := Tokens(k);
    var tp := Tokens(p);
    if |tp| <= |tk| {
      assert tp == (tk + [m])[..|tp|];
      assert (tk + [m])[..|tp|] == tk[..|tp|];
    } else {
      assert |tp| == |tk| + 1;
      assert tp == tk + [m];
      CanonicalInjective(p, FullPath(k, m));
    }
  }

  /** A path strictly below `p` has a parent, still below `p`, one segment
      shorter. */
  lemma ParentStillBelow(x: string, p: string)
    requires Canonical(x) && Canonical(p) && Below(x, p) && x != p
    ensures x != Root && ParentPath(x).Some?
    ensures Canonical(ParentPath(x).value) && Below(ParentPath(x).value, p)
    ensures |Tokens(ParentPath(x).value)| < |Tokens(x)|
  {
    RootBelowOnlyRoot(x, p);
    ParentCanonical(x);
    var q := ParentPath(x).value;
    var tx := Tokens(x);
    if Tokens(p) == tx {
      CanonicalInjective(x, p);
    }
    assert |Tokens(p)| < |tx|;
    assert Tokens(p) == tx[..|Tokens(p)|];
    assert tx[..|tx| - 1][..|Tokens(p)|] == tx[..|Tokens(p)|];
  }

  /** Every path strictly below `p` in a well-formed store lies below one of the
      children `p` lists. */
  lemma {:induction false} BelowSomeChild(st: Store, p: string, x: string) returns (i: int)
    requires StoreWf(st) && p in st.kids && x in st.kids
    requires Below(x, p) && x != p
    ensures 0 <= i < |st.kids[p]| && Below(x, FullPath(p, st.kids[p][i]))
    decreases |Tokens(x)|
  {
    ParentStillBelow(x, p);
    var q := ParentPath(x).value;
    if q == p {
      var n := NameOf(x);
      assert n in st.kids[p];
      i :| 0 <= i < |st.kids[p]| && st.kids[p][i] == n;
      assert FullPath(p, st.kids[p][i]) == x by {
        SplitPath(x);
      }
    } else {
      i := BelowSomeChild(st, p, q);
      BelowViaParent(x, FullPath(p, st.kids[p][i]));
    }
  }

  /** Two children of the same parent with different names: only the named
      one is that path. */
  lemma SiblingDistinct(k: string, q: string)
    requires Canonical(k) && k != Root && Canonical(q) && q != Root
    requires ParentPath(k) == ParentPath(q) && NameOf(k) == NameOf(q)
    ensures k == q
  {
    SplitPath(k);
    SplitPath(q);
  }

  lemma PrunedParents(st: Store, p: string)
    requires StoreWf(st) && p in st.kids && p != Root
    ensures var st' := Pruned(st, p);
            forall k :: k in st'.kids && k != Root ==>
              ParentPath(k).Some? && ParentPath(k).value in st'.kids
              && NameOf(k) in st'.kids[ParentPath(k).value]
  {
    var st' := Pruned(st, p);
    var pp := ParentPath(p).value;
    forall k | k in st'.kids && k != Root
      ensures ParentPath(k).Some? && ParentPath(k).value in st'.kids
              && NameOf(k) in st'.kids[ParentPath(k).value]
    {
      var q := ParentPath(k).value;
      if Below(q, p) {
        BelowViaParent(k, p);
      }
      assert q in st'.kids;
      if q == pp {
        RemoveFirstMembers(st.kids[pp], NameOf(p));
        if NameOf(k) == NameOf(p) {
          SiblingDistinct(k, p);
        }
      }
    }
  }

  lemma PrunedChildren(st: Store, p: string)
    requires StoreWf(st) && p in st.kids && p != Root
    ensures var st' := Pruned(st, p);
            forall k, i :: k in st'.kids && 0 <= i < |st'.kids[k]| ==>
              ValidName(st'.kids[k][i]) && FullPath(k, st'.kids[k][i]) in st'.kids
  {
    var st' := Pruned(st, p);
    forall k, i | k in st'.kids && 0 <= i < |st'.kids[k]|
      ensures ValidName(st'.kids[k][i]) && FullPath(k, st'.kids[k][i]) in st'.kids
    {
      PrunedChildAt(st, p, k, st'.kids[k][i]);
    }
  }

  /** One name left in a listing of the pruned store. */
  lemma PrunedChildAt(st: Store, p: string, k: string, m: string)
    requires StoreWf(st) && p in st.kids && p != Root
    requires k in Pruned(st, p).kids && m in Pruned(st, p).kids[k]
    ensures ValidName(m) && FullPath(k, m) in Pruned(st, p).kids
  {
    var pp := ParentPath(p).value;
    if k == pp {
      RemoveFirstMembers(st.kids[pp], NameOf(p));
    }
    assert m in st.kids[k] && (k == pp ==> m != NameOf(p));
    var j :| 0 <= j < |st.kids[k]| && st.kids[k][j] == m;
    assert ValidName(m) && FullPath(k, m) in st.kids;
    SurvivingChildNotBelow(k, m, p);
  }

  /** A listed child of a path outside `p`'s subtree lies outside it too, unless
      it is `p` itself, listed under `p`'s parent by `p`'s name. */
  lemma SurvivingChildNotBelow(k: string, m: string, p: string)
    requires Canonical(k) && ValidName(m) && Canonical(p) && !Below(k, p)
    requires ParentPath(p) == Some(k) ==> m != NameOf(p)
    ensures !Below(FullPath(k, m), p)
  {
    if Below(FullPath(k, m), p) {
      ChildBelow(k, m, p);
      ParentOfFullPath(k, m) by { CanonicalShape(k); }
      NameOfFullPath(k, m) by { FullPathCanonical(k, m); }
    }
  }

  /** Cutting off the subtree of a non-root path keeps the store well formed. */
  lemma PrunedKeepsWf(st: Store, p: string)
    requires StoreWf(st) && p in st.kids && p != Root
    ensures StoreWf(Pruned(st, p))
  {
    var st' := Pruned(st, p);
    var pp := ParentPath(p).value;
    PrunedParents(st, p);
    PrunedChildren(st, p);
    forall k | k in st'.kids
      ensures NoDups(st'.kids[k])
    {
      if k == pp {
        RemoveFirstMembers(st.kids[pp], NameOf(p));
      }
    }
  }

  lemma BelowTransitive(x: string, y: string, z: string)
    requires Below(x, y) && Below(y, z)
    ensures Below(x, z)
  {
    var tx, ty, tz := Tokens(x), Tokens(y), Tokens(z);
    assert tz == ty[..|tz|] && ty == tx[..|ty|];
    assert tx[..|ty|][..|tz|] == tx[..|tz|];
  }

  /** Two canonical paths each below the other are the same path. */
  lemma BelowAntisymmetric(x: string, y: string)
    requires Canonical(x) && Canonical(y) && Below(x, y) && Below(y, x)
    ensures x == y
  {
    assert Tokens(x) == Tokens(y);
    CanonicalInjective(x, y);
  }

  /** A listed child of `p`: its path is the full path, it lies strictly below
      `p`, and `p` is its parent. */
  lemma ListedChild(st: Store, p: string, i: int)
    requires StoreWf(st) && p in st.kids && 0 <= i < |st.kids[p]|
    ensures var cp := FullPath(p, st.kids[p][i]);
            && cp in st.kids && cp != Root && cp != p && Below(cp, p)
            && ChildPathOf(p, st.kids[p][i]) == cp
            && |cp| > |p|
            && ParentPath(cp) == Some(p) && NameOf(cp) == st.kids[p][i]
  {
    var n := st.kids[p][i];
    var cp := FullPath(p, n);
    FullPathCanonical(p, n);
    CanonicalShape(p);
    ChildPathIsFullPath(p, n);
    ParentOfFullPath(p, n);
    NameOfFullPath(p, n);
    assert Tokens(p) == (Tokens(p) + [n])[..|Tokens(p)|];
  }

  /** Every existing path is canonical. */
  predicate CanonicalKeys(st: Store)
  {
    forall k :: k in st.kids ==> Canonical(k)
  }

  /** Without listed children, nothing lies strictly below a path. */
  lemma NothingBelowLeaf(st: Store, p: string)
    requires StoreWf(st) && p in st.kids && st.kids[p] == []
    ensures forall x :: x in st.kids && Below(x, p) ==> x == p
  {
    forall x | x in st.kids && Below(x, p)
      ensures x == p
    {
      if x != p {
        var i := BelowSomeChild(st, p, x);
      }
    }
  }

  lemma EmptiedLeaf(st: Store, p: string)
    requires p in st.kids && st.kids[p] == []
    requires forall x :: x in st.kids && Below(x, p) ==> x == p
    ensures Emptied(st, p) == st
  {
    var e := Emptied(st, p).kids;
    assert e.Keys == st.kids.Keys;
    forall k | k in e
      ensures e[k] == st.kids[k]
    {
    }
  }

  /** Cutting off one child's subtree and then emptying the parent is emptying
      the parent. */
  lemma EmptiedAfterPruned(st: Store, p: string, cp: string)
    requires CanonicalKeys(st) && cp in st.kids && Below(cp, p) && cp != p
    requires ParentPath(cp) == Some(p)
    ensures Emptied(Pruned(st, cp), p) == Emptied(st, p)
  {
    var a := Emptied(Pruned(st, cp), p).kids;
    var b := Emptied(st, p).kids;
    forall k | k in st.kids && (k == p || !Below(k, p))
      ensures !Below(k, cp)
    {
      if Below(k, cp) {
        BelowTransitive(k, cp, p);
        if k == p {
          BelowAntisymmetric(cp, p);
        }
      }
    }
    assert a.Keys == b.Keys;
    forall k | k in a
      ensures a[k] == b[k]
    {
    }
  }

  /** Removing a path whose listing has been emptied cuts off its subtree. */
  lemma RemoveEmptiedInner(st: Store, p: string)
    requires CanonicalKeys(st) && p in st.kids && p != Root
    requires ParentPath(p).Some? && ParentPath(p).value in st.kids
    ensures Remove(Emptied(st, p), p) == Some(Pruned(st, p))
  {
    PrunedAsRemoval(st, p);
    assert Emptied(st, p).kids[p] == [];
  }

  /** Dropping `p`'s emptied listing and `p`'s name from its parent's listing
      gives the pruned store's listings. */
  lemma PrunedAsRemoval(st: Store, p: string)
    requires CanonicalKeys(st) && p in st.kids && p != Root
    requires ParentPath(p).Some? && ParentPath(p).value in st.kids
    ensures var rest := Emptied(st, p).kids - {p};
            var pp := ParentPath(p).value;
            && pp in rest
            && rest[pp := RemoveFirst(rest[pp], NameOf(p))] == Pruned(st, p).kids
  {
    var rest := Emptied(st, p).kids - {p};
    var pp := ParentPath(p).value;
    ParentNotBelow(p);
    assert pp in rest;
    var got := rest[pp := RemoveFirst(rest[pp], NameOf(p))];
    RemovalKeys(st, p, got);
    RemovalValues(st, p, got);
  }

  /** The removal keeps exactly the paths outside `p`'s subtree. */
  lemma RemovalKeys(st: Store, p: string, got: map<string, seq<string>>)
    requires ParentPath(p).Some? && ParentPath(p).value in Emptied(st, p).kids - {p}
    requires var rest := Emptied(st, p).kids - {p}; var pp := ParentPath(p).value;
             got == rest[pp := RemoveFirst(rest[pp], NameOf(p))]
    ensures got.Keys == Pruned(st, p).kids.Keys
  {
    assert Below(p, p);
  }

  /** On those paths the removal's listings are the pruned store's. */
  lemma RemovalValues(st: Store, p: string, got: map<string, seq<string>>)
    requires ParentPath(p).Some? && ParentPath(p).value in Emptied(st, p).kids - {p}
    requires var rest := Emptied(st, p).kids - {p}; var pp := ParentPath(p).value;
             got == rest[pp := RemoveFirst(rest[pp], NameOf(p))]
    requires got.Keys == Pruned(st, p).kids.Keys
    ensures got == Pruned(st, p).kids
  {
    var want := Pruned(st, p).kids;
    var pp := ParentPath(p).value;
    forall k | k in got
      ensures got[k] == want[k]
    {
      if k != pp {
        assert ParentPath(p) != Some(k);
      }
    }
  }

  /** No entry of the sequence lies below an earlier one: children come before
      their ancestors. */
  predicate BottomUp(deleted: seq<string>)
  {
    forall i, j :: 0 <= i < j < |deleted| ==> !Below(deleted[j], deleted[i])
  }

  /** `deleteNode` on the root deletes what lies below it, and then the
      refused deletion of the root itself is caught. */
  lemma RootStays(c: Cache, st: Store)
    requires Root in st.kids
    ensures DeleteNode(c, st, Root) == DeleteChildren(c, st, Root, st.kids[Root])
  {
  }

  /** Once the children of a non-root path are gone, the path itself goes and
      its subtree is cut off. */
  lemma FinishDeletion(c: Cache, st: Store, path: string)
    requires StoreWf(st) && path in st.kids && path != Root
    requires var sub := DeleteChildren(c, st, path, st.kids[path]);
             !sub.aborted && sub.store == Emptied(st, path)
    ensures DeleteNode(c, st, path) ==
            Outcome(Pruned(st, path), DeleteChildren(c, st, path, st.kids[path]).deleted + [path], false)
  {
    RemoveEmptiedInner(st, path);
  }

  /** `deleteNode` on an existing path of a well-formed store that the cache
      mirrors: no exception escapes, exactly the subtree of the path is removed
      but for the root, bottom-up, and the store is left with that subtree cut
      off. */
  lemma {:induction false} DeleteNodeComplete(c: Cache, st: Store, path: string)
    requires StoreWf(st) && Mirrors(c, st) && path in st.kids
    ensures var r := DeleteNode(c, st, path);
            && !r.aborted
            && r.store == Cut(st, path)
            && (forall x :: x in r.deleted <==> x in st.kids && Below(x, path) && x != Root)
            && BottomUp(r.deleted)
    decreases Above(st, |path|), 0
  {
    assert path in Above(st, |path|) && path !in Above(st, |path| + 1);
    DeleteChildrenComplete(c, st, path, st.kids[path]);
    var sub := DeleteChildren(c, st, path, st.kids[path]);
    if path == Root {
      RootStays(c, st);
      return;
    }
    FinishDeletion(c, st, path);
    RootBelowOnlyRoot(Root, path);
    var d := sub.deleted + [path];
    forall i, j | 0 <= i < j < |d|
      ensures !Below(d[j], d[i])
    {
      if j == |d| - 1 {
        assert d[i] in sub.deleted;
        if Below(path, d[i]) {
          BelowAntisymmetric(path, d[i]);
        }
      } else {
        assert d[i] == sub.deleted[i] && d[j] == sub.deleted[j];
      }
    }
  }

  /** Joining the deletions below one child with deletions outside that
      child's subtree keeps children before their ancestors. */
  lemma JoinBottomUp(d1: seq<string>, d2: seq<string>, cp: string)
    requires BottomUp(d1) && BottomUp(d2)
    requires forall x :: x in d1 ==> Below(x, cp)
    requires forall y :: y in d2 ==> !Below(y, cp)
    ensures BottomUp(d1 + d2)
  {
    var d := d1 + d2;
    forall i, j | 0 <= i < j < |d|
      ensures !Below(d[j], d[i])
    {
      if i < |d1| && j >= |d1| {
        var x, y := d[i], d[j];
        assert x in d1 && y in d2;
        if Below(y, x) {
          BelowTransitive(y, x, cp);
        }
      } else if j < |d1| {
        assert d[i] == d1[i] && d[j] == d1[j];
      } else {
        assert d[i] == d2[i - |d1|] && d[j] == d2[j - |d1|];
      }
    }
  }

  /** One round of the loop when the child's record is found and its deletion
      lets no exception escape. */
  lemma DeleteChildrenStep(c: Cache, st: Store, path: string, names: seq<string>)
    requires |names| > 0
    requires var cp := ChildPathOf(path, names[0]);
             cp in c.nodes && c.nodes[cp].path == cp && |cp| > |path|
             && !DeleteNode(c, st, cp).aborted
    ensures var first := DeleteNode(c, st, ChildPathOf(path, names[0]));
            var rest := DeleteChildren(c, first.store, path, names[1..]);
            DeleteChildren(c, st, path, names) == Outcome(rest.store, first.deleted + rest.deleted, rest.aborted)
  {
  }

  /** Deleting one child's subtree and then emptying the rest of the listing
      removes exactly what is strictly below the parent, bottom-up. */
  lemma JoinRounds(st: Store, path: string, cp: string, first: Outcome, rest: Outcome)
    requires CanonicalKeys(st) && cp in st.kids && Below(cp, path) && cp != path
    requires ParentPath(cp) == Some(path)
    requires first.store == Pruned(st, cp) && BottomUp(first.deleted)
    requires forall x :: x in first.deleted <==> x in st.kids && Below(x, cp)
    requires rest.store == Emptied(first.store, path) && BottomUp(rest.deleted)
    requires forall x :: x in rest.deleted <==> x in first.store.kids && Below(x, path) && x != path
    ensures rest.store == Emptied(st, path)
    ensures forall x :: x in first.deleted + rest.deleted <==> x in st.kids && Below(x, path) && x != path
    ensures BottomUp(first.deleted + rest.deleted)
  {
    EmptiedAfterPruned(st, path, cp);
    forall x | x in first.deleted
      ensures Below(x, path) && x != path
    {
      BelowTransitive(x, cp, path);
      if x == path {
        BelowAntisymmetric(cp, path);
      }
    }
    forall x | x in rest.deleted
      ensures !Below(x, cp)
    {
      assert x in first.store.kids;
    }
    JoinBottomUp(first.deleted, rest.deleted, cp);
  }

  /** The first round of the loop over a full listing: the first child's
      subtree goes, and what is left is a well-formed store in which the
      parent lists the remaining names. */
  lemma FirstRound(c: Cache, st: Store, path: string, names: seq<string>) returns (cp: string)
    requires StoreWf(st) && Mirrors(c, st) && path in st.kids && st.kids[path] == names
    requires |names| > 0
    ensures cp == ChildPathOf(path, names[0]) && cp in c.nodes && c.nodes[cp].path == cp
    ensures |cp| > |path| && cp in st.kids && Below(cp, path) && cp != path
    ensures ParentPath(cp) == Some(path)
    ensures var first := DeleteNode(c, st, cp);
            && !first.aborted
            && first.store == Pruned(st, cp)
            && (forall x :: x in first.deleted <==> x in st.kids && Below(x, cp))
            && BottomUp(first.deleted)
            && StoreWf(first.store) && Mirrors(c, first.store)
            && path in first.store.kids && first.store.kids[path] == names[1..]
            && Above(first.store, |path| + 1) < Above(st, |path| + 1)
    decreases Above(st, |path| + 1), 1, |names|, 0
  {
    ListedChild(st, path, 0);
    cp := FullPath(path, names[0]);
    assert Above(st, |cp|) <= Above(st, |path| + 1);
    DeleteNodeComplete(c, st, cp);
    var first := DeleteNode(c, st, cp);
    var st1 := first.store;
    assert cp in Above(st, |path| + 1) && cp !in Above(st1, |path| + 1);
    PrunedKeepsWf(st, cp);
    ParentNotBelow(cp);
    assert IndexOf(names, names[0]) == 0;
  }

  /** The loop over the listing of an existing path, started on its full
      listing: no exception escapes, exactly the paths strictly below it are
      removed, bottom-up, and its own listing ends up empty. */
  lemma {:induction false} DeleteChildrenComplete(c: Cache, st: Store, path: string, names: seq<string>)
    requires StoreWf(st) && Mirrors(c, st) && path in st.kids && st.kids[path] == names
    ensures var r := DeleteChildren(c, st, path, names);
            && !r.aborted
            && r.store == Emptied(st, path)
            && (forall x :: x in r.deleted <==> x in st.kids && Below(x, path) && x != path)
            && BottomUp(r.deleted)
    decreases Above(st, |path| + 1), 1, |names|
  {
    if |names| == 0 {
      NothingBelowLeaf(st, path);
      EmptiedLeaf(st, path);
    } else {
      var cp := FirstRound(c, st, path, names);
      var first := DeleteNode(c, st, cp);
      DeleteChildrenComplete(c, first.store, path, names[1..]);
      var rest := DeleteChildren(c, first.store, path, names[1..]);
      DeleteChildrenStep(c, st, path, names);
      JoinRounds(st, path, cp, first, rest);
    }
  }

  /** A path that survives deleting the selected nodes: it exists and is the
      root or lies outside the subtree of every selected node that exists. */
  predicate Survives(st: Store, ps: seq<string>, k: string)
  {
    k in st.kids && (k == Root || forall i :: 0 <= i < |ps| && ps[i] in st.kids ==> !Below(k, ps[i]))
  }

  /** Emptying the root leaves the root alone, with an empty listing. */
  lemma EmptiedRoot(st: Store)
    requires Root in st.kids
    ensures Emptied(st, Root).kids == map[Root := []]
  {
    forall k | k in st.kids
      ensures Below(k, Root)
    {
      assert Tokens(Root) == [];
    }
  }

  /** Deleting an existing subtree keeps the store well formed and mirrored. */
  lemma CutStaysWf(c: Cache, st: Store, p: string)
    requires StoreWf(st) && Mirrors(c, st) && p in st.kids
    ensures StoreWf(Cut(st, p)) && Mirrors(c, Cut(st, p))
  {
    if p == Root {
      EmptiedRoot(st);
    } else {
      PrunedKeepsWf(st, p);
    }
  }

  /** One round of `deleteNodes` on an existing node: the survivors of the rest
      of the selection in the pruned store are the survivors of the whole
      selection in the original store. */
  lemma SurvivorsAfterFirst(st: Store, ps: seq<string>, k: string)
    requires CanonicalKeys(st) && |ps| > 0 && ps[0] in st.kids
    ensures Survives(Cut(st, ps[0]), ps[1..], k) <==> Survives(st, ps, k)
  {
    if ps[0] == Root {
      EmptiedRoot(st);
      assert k != Root ==> Below(k, ps[0]) by {
        assert Tokens(Root) == [];
      }
      return;
    }
    var st1 := Pruned(st, ps[0]);
    RootBelowOnlyRoot(Root, ps[0]);
    if k == Root {
      return;
    }
    if Survives(st1, ps[1..], k) {
      forall i | 0 <= i < |ps| && ps[i] in st.kids
        ensures !Below(k, ps[i])
      {
        if i > 0 {
          assert ps[1..][i - 1] == ps[i];
          if ps[i] !in st1.kids && Below(k, ps[i]) {
            BelowTransitive(k, ps[i], ps[0]);
          }
        }
      }
    }
    if Survives(st, ps, k) {
      forall i | 0 <= i < |ps[1..]| && ps[1..][i] in st1.kids
        ensures !Below(k, ps[1..][i])
      {
        assert ps[1..][i] == ps[i + 1];
      }
    }
  }

  /** A selected node that does not exist changes nothing: the survivors of
      the rest of the selection are the survivors of the whole. */
  lemma SurvivorsSkipMissing(st: Store, ps: seq<string>, k: string)
    requires |ps| > 0 && ps[0] !in st.kids
    ensures Survives(st, ps[1..], k) <==> Survives(st, ps, k)
  {
    if Survives(st, ps[1..], k) && k != Root {
      forall i | 0 <= i < |ps| && ps[i] in st.kids
        ensures !Below(k, ps[i])
      {
        assert i > 0 && ps[1..][i - 1] == ps[i];
      }
    }
    if Survives(st, ps, k) && k != Root {
      forall i | 0 <= i < |ps[1..]| && ps[1..][i] in st.kids
        ensures !Below(k, ps[1..][i])
      {
        assert ps[1..][i] == ps[i + 1];
      }
    }
  }

  /** `deleteNodes` on a well-formed store that the cache mirrors: no exception
      escapes, and exactly the paths outside every selected node's subtree
      remain, whatever the order of the selection and whether selected nodes
      lie inside one another. */
  lemma {:induction false} DeleteNodesComplete(c: Cache, st: Store, ps: seq<string>)
    requires StoreWf(st) && Mirrors(c, st)
    ensures var r := DeleteNodes(c, st, ps);
            && !r.aborted
            && forall k :: k in r.store.kids <==> Survives(st, ps, k)
    decreases |ps|
  {
    if |ps| > 0 {
      var first := DeleteNode(c, st, ps[0]);
      if ps[0] in st.kids {
        DeleteNodeComplete(c, st, ps[0]);
        CutStaysWf(c, st, ps[0]);
        DeleteNodesComplete(c, first.store, ps[1..]);
        forall k
          ensures k in DeleteNodes(c, st, ps).store.kids <==> Survives(st, ps, k)
        {
          SurvivorsAfterFirst(st, ps, k);
        }
      } else {
        assert first == Outcome(st, [], false);
        DeleteNodesComplete(c, st, ps[1..]);
        forall k
          ensures Survives(st, ps[1..], k) <==> Survives(st, ps, k)
        {
          SurvivorsSkipMissing(st, ps, k);
        }
      }
    }
  }
}
