# ZooViewer node cache, in Dafny

ZooViewer is a desktop browser for a ZooKeeper tree. Its model layer keeps a
client-side cache of the tree (`ZVModelImpl`). The cache holds a `path -> record`
map and a `record -> ordered child list` map. Each record is a `ZVNodeImpl`:
path, derived name, `exists` flag, data and stat. A tree view (`ZVTreeModel`)
maps the cache onto a Swing tree.

This project models that core as pure functions over immutable values:

- `Paths`: the path arithmetic. This is `getFullPath`, the private
  `getParent(String)`, the name a record derives from its path, and the '/'
  tokenizer the tree view walks with.
- `ZNode`: the record. It covers both constructors, the three change-detecting
  setters with the notifications they fire, the copying getters, and
  `equals`/`hashCode`. `hashCode` includes Java's 32-bit wrap-around of
  `String.hashCode`.
- `NodeCache`: the cache as `Cache(nodes, children)`, with child lists keyed by
  path. Records are equal exactly when their paths are equal, so nothing is lost
  by this.
  - Operations: `populateRoot`, `nodeDeleted`, `nodeDataChanged`, the local
    checks of `addNode`, `updateData`, `getNode`, `getParent(ZVNode)` and
    `getChildren`.
  - A transition returns the new cache and the model events it fired
    (`Created`, `Deleted(oldIndex)`, `DataChanged`), in order. It also returns
    the paths whose children it asks for.
  - `Wf` is the representation invariant. Every `NodeCache` transition keeps
    it, and the listing callback keeps it when its parent is tracked. Every
    call of `populateChildren` names a tracked parent until `close` clears the
    cache. A listing for an untracked parent would create a live child whose
    parent is not tracked.
- `Population`: the body of the `populateChildren` callback, which reconciles
  one children listing of one parent.
  - An untracked child is created, a tombstoned child is revived, and a live
    child is left alone.
  - Every per-child exception is caught.
  - Server replies are inputs: one data-and-stat reply per listed name, plus
    the reply to the parent's `exists`.
- `Deletion`: `deleteNode` and `deleteNodes` against an abstract store. The
  store maps each existing path to the names its children listing returns.
- `Subtree`: the correctness of `deleteNode` and `deleteNodes` on a store
  shaped like the service's tree, when the cache tracks every node. The whole
  subtree of each selected node goes, children before their ancestors. The
  service never deletes the root, so selecting the root empties the tree but
  leaves the root itself.
- `TreeView`: `ZVTreeModel`. This covers `getTreePath` as the source's loop and
  as a reference definition, `getRoot` and the child queries over the live
  children, and the `nodeDeleted` and `nodeCreated` listeners' choice of parent
  path and index.
- `Base`/`Lists`: `Option`/`Result`, and Java's `List.indexOf` and
  `List.remove(Object)` (first occurrence, or -1).

Java `null` is `Option`. An exception that escapes an operation is a `Fault`,
or `aborted` for deletions. An exception the source catches leaves whatever
effects had already happened.

The cache is meant to keep these promises: a deletion notification delivered
twice has the effect of one; and every live record other than the root sits
under a live parent. The code keeps neither in every case, and the model
follows the code:

- A deletion notification is not idempotent under duplicate delivery. In the
  code a second delivery of the same deletion is not silent:
  the record is already a tombstone, but `nodeDeleted` still fires `Deleted`
  again with index -1 (`NodeCache.NodeDeletedTwice`).
- Reviving a tombstone gives it a fresh, empty child list. Its children that
  stayed live are then tracked and live but listed nowhere. Later listings of
  the revived node do not list them either: the listing callback acts on a
  tracked child only when it is not live, so it neither re-appends nor
  re-announces a live one (`Population.LiveChildStaysUnlisted`). So the index
  `nodeDeleted` reports for such a child is -1, and so is the index the view
  shows for it (`TreeView.ListIndexIsViewIndex`).
- A live record can sit under a tombstone. The invariant `Wf` asks only that
  a non-root record's parent be tracked, because the listing callback treats
  a tombstoned parent as known. A listing delivered for a deleted `/a` still
  creates a live `/a/b`, appends it to the tombstone's list and announces it
  (`Population.LiveChildUnderTombstone`).
- `nodeDeleted` dereferences the parent's child list without a check. The model
  makes a tracked parent with a list a precondition (`NodeCache.ParentTracked`).

## Model

Source paths are relative to the repository root.

| member | source | states |
|---|---|---|
| Lists.IndexOf | src/main/java/net/isammoc/zooviewer/model/ZVModelImpl.java:173 | `indexOf`: -1 exactly when absent; otherwise the position holds the element and no earlier position does |
| Lists.RemoveFirstMembers | src/main/java/net/isammoc/zooviewer/model/ZVModelImpl.java:174 | `remove(Object)` on a duplicate-free list keeps it duplicate-free and removes exactly the given element |
| Lists.RemoveFirst | src/main/java/net/isammoc/zooviewer/model/ZVModelImpl.java:174 | `remove(Object)` shortens the list by one exactly when the element is present |
| Lists.SpliceBack | src/main/java/net/isammoc/zooviewer/model/ZVModelImpl.java:173-174 | the list before removal is the list after it with the element put back at the index `indexOf` reported |
| Paths.FullPath | src/main/java/net/isammoc/zooviewer/model/ZVModelImpl.java:280-282 | `getFullPath` is the parent path plus the name, with one more character (the joining '/') unless the parent is the root |
| Paths.FullPathShape | src/main/java/net/isammoc/zooviewer/model/ZVModelImpl.java:280-282 | the child path starts with the parent path, has the joining '/' right after it unless the parent is the root, and ends with the name |
| Paths.ParentPath | src/main/java/net/isammoc/zooviewer/model/ZVModelImpl.java:288-299 | `getParent(String)` gives nothing exactly for the root |
| Paths.ParentPathShape | src/main/java/net/isammoc/zooviewer/model/ZVModelImpl.java:288-299 | the parent of a non-root path is the root when no '/' follows the first character, and otherwise the prefix before the last '/' |
| Paths.NameOf | src/main/java/net/isammoc/zooviewer/node/ZVNodeImpl.java:34-38 | the derived name of the root is "/", and no name is longer than its path |
| Paths.NameOfShape | src/main/java/net/isammoc/zooviewer/node/ZVNodeImpl.java:34-38 | the name of a non-root path is its text after the last '/', and holds no '/' |
| Paths.Tokens | src/main/java/net/isammoc/zooviewer/tree/ZVTreeModel.java:87-89 | the tokens of a path are non-empty and free of '/' |
| Paths.ParentOfFullPath | src/main/java/net/isammoc/zooviewer/model/ZVModelImpl.java:280-299 | `getParent(getFullPath(p, c)) == p` for `p` the root or not ending in '/', and `c` without '/' (and not empty when `p` is the root) |
| Paths.NameOfFullPath | src/main/java/net/isammoc/zooviewer/node/ZVNodeImpl.java:34-38 | the name derived from `getFullPath(p, c)` is `c` |
| Paths.LastSlashOfJoin | src/main/java/net/isammoc/zooviewer/model/ZVModelImpl.java:292 | `lastIndexOf("/")` of `a + "/" + n`, with `n` free of '/', is the joining slash |
| Paths.TokensOfPath | src/main/java/net/isammoc/zooviewer/tree/ZVTreeModel.java:87-89 | tokenizing "/s1/.../sk" on '/' gives back exactly the segments s1..sk |
| Paths.TokensCoverText | src/main/java/net/isammoc/zooviewer/tree/ZVTreeModel.java:87-89 | the tokens, concatenated, are the text with every '/' removed, so no character other than '/' is lost |
| Paths.FullPathCanonical | src/main/java/net/isammoc/zooviewer/model/ZVModelImpl.java:280-282 | a child path built from a canonical path and a valid name is canonical, and its segments are the parent's plus the name |
| Paths.ParentCanonical | src/main/java/net/isammoc/zooviewer/model/ZVModelImpl.java:288-299 | the parent of a canonical non-root path is canonical, with the last segment dropped |
| Paths.SplitPath | src/main/java/net/isammoc/zooviewer/model/ZVModelImpl.java:288-299 | a canonical non-root path is `getFullPath` of its parent and its last segment |
| ZNode.NewNode | src/main/java/net/isammoc/zooviewer/node/ZVNodeImpl.java:32-40 | the path-only constructor keeps the path, derives the name, and starts not existing, with no data or stat |
| ZNode.NewLiveNode | src/main/java/net/isammoc/zooviewer/node/ZVNodeImpl.java:42-51 | the path-and-data constructor keeps the path and data, derives the name, and starts existing |
| ZNode.RecordName | src/main/java/net/isammoc/zooviewer/node/ZVNodeImpl.java:32-48 | a record created for child `c` is named `c`; the root record is named "/" |
| ZNode.SetData | src/main/java/net/isammoc/zooviewer/node/ZVNodeImpl.java:72-78 | stores `d` and changes nothing else; fires one data change (old, new) exactly when the content differs |
| ZNode.SetExists | src/main/java/net/isammoc/zooviewer/node/ZVNodeImpl.java:85-91 | stores `b` and changes nothing else; fires one change with old value `!b` exactly when `b` differs |
| ZNode.SetStat | src/main/java/net/isammoc/zooviewer/node/ZVNodeImpl.java:144-150 | stores `s` (null allowed) and changes nothing else; fires one stat change exactly when the stored stat differs |
| ZNode.SettersReadBack | src/main/java/net/isammoc/zooviewer/node/ZVNodeImpl.java:63-78 | `getData`/`getStat` after a setter give the value written, and repeating any setter with the same value fires nothing |
| ZNode.ToInt32 | src/main/java/net/isammoc/zooviewer/node/ZVNodeImpl.java:129 | truncation to a 32-bit `int`: in range and congruent modulo 2^32 |
| ZNode.StringHashIsTruncatedPolynomial | src/main/java/net/isammoc/zooviewer/node/ZVNodeImpl.java:127-130 | the hash computed with wrap-around at every step is the exact polynomial over the characters, truncated once |
| ZNode.GetData | src/main/java/net/isammoc/zooviewer/node/ZVNodeImpl.java:63-70 | `getData` is null exactly when no data is stored, and otherwise has the stored content |
| ZNode.GetStat | src/main/java/net/isammoc/zooviewer/node/ZVNodeImpl.java:139-142 | `getStat` is null exactly when no stat is stored, and otherwise equals the stored stat |
| ZNode.Equals | src/main/java/net/isammoc/zooviewer/node/ZVNodeImpl.java:115-125 | `equals` holds for a record and itself, and equal records have equal hash codes |
| ZNode.StringHash | src/main/java/net/isammoc/zooviewer/node/ZVNodeImpl.java:127-130 | `String.hashCode` is a 32-bit `int` |
| ZNode.HashCode | src/main/java/net/isammoc/zooviewer/node/ZVNodeImpl.java:127-130 | the record's hash code is the polynomial hash of its path, truncated to a 32-bit `int` |
| ZNode.EqualsContract | src/main/java/net/isammoc/zooviewer/node/ZVNodeImpl.java:115-130 | equality by path is an equivalence, and equal records have equal hash codes |
| ZNode.SettersKeepIdentity | src/main/java/net/isammoc/zooviewer/node/ZVNodeImpl.java:72-150 | every setter yields a record equal to the original, with the same hash code |
| NodeCache.EmptyIsWf | src/main/java/net/isammoc/zooviewer/model/ZVModelImpl.java:157-159 | the cleared cache satisfies the invariant |
| NodeCache.PopulateRoot | src/main/java/net/isammoc/zooviewer/model/ZVModelImpl.java:201-220 | seeds a live root with the reply's data and stat and an empty list, firing one `Created` and asking for its children, only when no root is tracked and the read succeeds; otherwise nothing |
| NodeCache.PopulateRootIdempotent | src/main/java/net/isammoc/zooviewer/model/ZVModelImpl.java:201-213 | once a root is seeded, populating again changes nothing and fires nothing |
| NodeCache.PopulateRootKeepsWf | src/main/java/net/isammoc/zooviewer/model/ZVModelImpl.java:201-220 | seeding the root keeps the invariant |
| NodeCache.NodeDeleted | src/main/java/net/isammoc/zooviewer/model/ZVModelImpl.java:167-177 | untracked path: nothing; tracked: tombstone (exists false, stat cleared, data kept), taken out of the parent's list at the index reported by the one `Deleted` event |
| NodeCache.NodeDeletedTombstones | src/main/java/net/isammoc/zooviewer/model/ZVModelImpl.java:167-177 | deleting a live node keeps its record (equal, same data) but not live, removes exactly it from the parent's list, and reports where it stood |
| NodeCache.NodeDeletedTwice | src/main/java/net/isammoc/zooviewer/model/ZVModelImpl.java:167-177 | a second delivery leaves the cache alone but fires `Deleted` again with index -1 |
| NodeCache.NodeDeletedKeepsWf | src/main/java/net/isammoc/zooviewer/model/ZVModelImpl.java:167-177 | a deletion keeps the invariant |
| NodeCache.AddNode | src/main/java/net/isammoc/zooviewer/model/ZVModelImpl.java:302-317 | rejects a live path (IllegalStateException) and then a missing or tombstoned parent (IllegalArgumentException); sends the create exactly when neither applies |
| NodeCache.AddUnderDeletedParent | src/main/java/net/isammoc/zooviewer/model/ZVModelImpl.java:302-317 | after `nodeDeleted` of a live node, `addNode` never sends a create under it, and it reports the missing parent exactly when the child path is not live itself |
| NodeCache.ReAddAfterDelete | src/main/java/net/isammoc/zooviewer/model/ZVModelImpl.java:302-317 | after `nodeDeleted` of a live node, `addNode` of the same path sends the create exactly when its parent is live, and otherwise reports the missing parent |
| NodeCache.UpdateData | src/main/java/net/isammoc/zooviewer/model/ZVModelImpl.java:367-376 | a successful write stores the returned stat on the record, and nothing else changes; a failed write changes nothing; an untracked path is a NullPointerException |
| NodeCache.NodeDataChanged | src/main/java/net/isammoc/zooviewer/model/ZVModelImpl.java:183-195 | a successful read copies data and stat onto the record and fires one `DataChanged`; a failed read changes nothing; an untracked path is a NullPointerException |
| NodeCache.StatUpdatesKeepWf | src/main/java/net/isammoc/zooviewer/model/ZVModelImpl.java:183-195 | both stat-copying updates keep the invariant |
| NodeCache.GetNode | src/main/java/net/isammoc/zooviewer/model/ZVModelImpl.java:379-381 | the record at the path, present exactly when tracked, tombstones included |
| NodeCache.GetParent | src/main/java/net/isammoc/zooviewer/model/ZVModelImpl.java:384-386 | `getParent(ZVNode)`: null for the root, and otherwise the record tracked at the parent path, null exactly when none is |
| NodeCache.ParentOfTracked | src/main/java/net/isammoc/zooviewer/model/ZVModelImpl.java:384-386 | in a well-formed cache `getParent` of a tracked non-root record is the tracked record whose `getFullPath` with the name is the record's path |
| NodeCache.LiveOnly | src/main/java/net/isammoc/zooviewer/model/ZVModelImpl.java:391-395 | the filtered list holds exactly the live entries of the list |
| NodeCache.LiveOnlyAppend | src/main/java/net/isammoc/zooviewer/model/ZVModelImpl.java:391-395 | filtering distributes over concatenation, so stored order is kept |
| NodeCache.LiveOnlyKeepsNoDups | src/main/java/net/isammoc/zooviewer/model/ZVModelImpl.java:391-395 | filtering a duplicate-free list keeps it duplicate-free |
| NodeCache.WfListsAreLive | src/main/java/net/isammoc/zooviewer/model/ZVModelImpl.java:389-397 | in a well-formed cache the filter returns the stored list unchanged |
| NodeCache.ChildrenOf | src/main/java/net/isammoc/zooviewer/model/ZVModelImpl.java:389-397 | a result exactly when the parent has a list (else a NullPointerException), holding exactly its live entries |
| NodeCache.GetChildren | src/main/java/net/isammoc/zooviewer/model/ZVModelImpl.java:389-397 | the source's loop computes the ordered live sublist of the parent's list |
| Population.Attach | src/main/java/net/isammoc/zooviewer/model/ZVModelImpl.java:249-251 | a known parent with a list gets the child appended, one `Created` and one children request; the records never change; otherwise nothing happens |
| Population.ChildStep | src/main/java/net/isammoc/zooviewer/model/ZVModelImpl.java:239-266 | a live child or a failed read: nothing; otherwise a live record with the reply's data and stat, a fresh empty list, appended to a known parent's list with one `Created` and one request |
| Population.Children | src/main/java/net/isammoc/zooviewer/model/ZVModelImpl.java:239-267 | the walk never drops or tombstones a record, and every event is a `Created` matched by a children request for the same path |
| Population.ChildrenAppend | src/main/java/net/isammoc/zooviewer/model/ZVModelImpl.java:239-267 | walking a listing in two parts is walking it whole |
| Population.FailedChildIsSkipped | src/main/java/net/isammoc/zooviewer/model/ZVModelImpl.java:239-266 | a child whose read fails leaves the rest of the listing processed as if that child were not listed |
| Population.UnlistedAfterChildren | src/main/java/net/isammoc/zooviewer/model/ZVModelImpl.java:239-267 | the walk over any listing never appends a live record its parent's list lacks |
| Population.LiveChildStaysUnlisted | src/main/java/net/isammoc/zooviewer/model/ZVModelImpl.java:230-267 | a live record missing from its parent's list stays live and missing after any listing of that parent |
| Population.ReplayIsSilent | src/main/java/net/isammoc/zooviewer/model/ZVModelImpl.java:242-253 | a listing of children that are all live changes nothing and fires nothing |
| Population.ChildrenMakeLive | src/main/java/net/isammoc/zooviewer/model/ZVModelImpl.java:239-263 | after a listing whose reads all succeed, every listed child is live |
| Population.ChildrenFrame | src/main/java/net/isammoc/zooviewer/model/ZVModelImpl.java:239-267 | records at paths no entry names come through untouched |
| Population.Listing | src/main/java/net/isammoc/zooviewer/model/ZVModelImpl.java:230-267 | the callback never drops or tombstones a record, announces each created child with a matching children request, and with no names delivered changes no list and fires nothing |
| Population.LiveChildUnderTombstone | src/main/java/net/isammoc/zooviewer/model/ZVModelImpl.java:230-251 | a listing for a tombstoned parent leaves a live child under it and announces it |
| Population.AddUnderListedChild | src/main/java/net/isammoc/zooviewer/model/ZVModelImpl.java:302-317 | after a listing whose reads all succeed, `addNode` under a listed child sends the create exactly when the new path is not already live |
| Population.ListingIdempotent | src/main/java/net/isammoc/zooviewer/model/ZVModelImpl.java:230-267 | delivering the same listing a second time changes nothing and fires no events |
| Population.InsertChildKeepsWf | src/main/java/net/isammoc/zooviewer/model/ZVModelImpl.java:244-260 | inserting a created or revived child keeps the invariant |
| Population.ChildStepKeepsWf | src/main/java/net/isammoc/zooviewer/model/ZVModelImpl.java:239-266 | handling one listed child keeps the invariant |
| Population.ChildrenKeepWf | src/main/java/net/isammoc/zooviewer/model/ZVModelImpl.java:239-267 | the walk over a listing keeps the invariant |
| Population.ListingKeepsWf | src/main/java/net/isammoc/zooviewer/model/ZVModelImpl.java:230-267 | the whole callback, for a tracked parent, keeps the invariant |
| Deletion.ChildPathIsFullPath | src/main/java/net/isammoc/zooviewer/model/ZVModelImpl.java:338-339 | the child path `deleteNode` builds agrees with `getFullPath` on the cache's paths |
| Deletion.Remove | src/main/java/net/isammoc/zooviewer/model/ZVModelImpl.java:346-350 | `delete(path, -1)` succeeds exactly on an existing non-root path without children, and removes just that path; otherwise the KeeperException is caught |
| Deletion.DeleteNode | src/main/java/net/isammoc/zooviewer/model/ZVModelImpl.java:326-356 | only paths that existed are removed, each once, and exactly those leave the store; the node itself, if removed, goes last; an absent path is a no-op |
| Deletion.DeleteChildren | src/main/java/net/isammoc/zooviewer/model/ZVModelImpl.java:332-342 | the loop removes only existing paths strictly longer than the parent, each once, and exactly those leave the store |
| Deletion.DeleteNodes | src/main/java/net/isammoc/zooviewer/model/ZVModelImpl.java:359-364 | only existing paths are removed, each once, and exactly those leave the store |
| Deletion.DeleteLeaf | src/main/java/net/isammoc/zooviewer/model/ZVModelImpl.java:330-350 | a node without children is deleted on its own, except the root, which stays and removes nothing |
| Subtree.PrunedKeepsWf | src/main/java/net/isammoc/zooviewer/model/ZVModelImpl.java:326-356 | cutting off a subtree leaves a store shaped like the service's tree |
| Subtree.BelowSomeChild | src/main/java/net/isammoc/zooviewer/model/ZVModelImpl.java:335-341 | every path strictly below a node lies below one of the node's listed children |
| Subtree.RootStays | src/main/java/net/isammoc/zooviewer/model/ZVModelImpl.java:330-350 | `deleteNode` on the root ends with the loop over its children: the refused deletion of the root is caught |
| Subtree.CutStaysWf | src/main/java/net/isammoc/zooviewer/model/ZVModelImpl.java:326-356 | deleting an existing subtree, the root's included, leaves a store shaped like the service's tree that the cache still mirrors |
| Subtree.DeleteNodeComplete | src/main/java/net/isammoc/zooviewer/model/ZVModelImpl.java:326-356 | on a tree-shaped store the cache fully tracks, no exception escapes and exactly the node's subtree is removed except the root, children before ancestors; the root stays with an empty listing |
| Subtree.DeleteChildrenComplete | src/main/java/net/isammoc/zooviewer/model/ZVModelImpl.java:332-342 | the loop over the full listing removes exactly what lies strictly below the node, bottom-up, and empties its listing |
| Subtree.DeleteNodesComplete | src/main/java/net/isammoc/zooviewer/model/ZVModelImpl.java:359-364 | on a tree-shaped store the cache fully tracks, no exception escapes and exactly the root and the paths outside the subtree of every selected existing node remain, in any order of the selection |
| Subtree.JoinBottomUp | src/main/java/net/isammoc/zooviewer/model/ZVModelImpl.java:335-341 | deleting one child's subtree before the later children keeps every node after its descendants |
| TreeView.Chain | src/main/java/net/isammoc/zooviewer/tree/ZVTreeModel.java:88-92 | the records at the cumulative prefixes "/s1/.../sk", present exactly when every prefix is tracked |
| TreeView.TreePathOf | src/main/java/net/isammoc/zooviewer/tree/ZVTreeModel.java:83-94 | the root record followed by the record at each cumulative prefix; IllegalArgumentException without a root, NullPointerException at an untracked prefix |
| TreeView.GetTreePath | src/main/java/net/isammoc/zooviewer/tree/ZVTreeModel.java:83-94 | the source's loop, with its running `currentPath`, computes the reference definition above |
| TreeView.TreePathStep | src/main/java/net/isammoc/zooviewer/tree/ZVTreeModel.java:83-94 | a node's tree path is its parent's tree path plus its own record |
| TreeView.TreePathUnderParent | src/main/java/net/isammoc/zooviewer/tree/ZVTreeModel.java:83-94 | in a well-formed cache a tracked non-root node's tree path is its parent's tree path followed by its record |
| TreeView.TreePathOfTracked | src/main/java/net/isammoc/zooviewer/tree/ZVTreeModel.java:83-94 | in a well-formed cache a tracked node's tree path succeeds, has 1 + segment-count entries, ends at its record, and links each entry to its parent |
| TreeView.GetRoot | src/main/java/net/isammoc/zooviewer/tree/ZVTreeModel.java:97-99 | the record at "/", present exactly when tracked |
| TreeView.GetChild | src/main/java/net/isammoc/zooviewer/tree/ZVTreeModel.java:102-108 | the live child at the index, an error exactly when the index is out of the live list's range or the parent has no list |
| TreeView.GetChildCount | src/main/java/net/isammoc/zooviewer/tree/ZVTreeModel.java:111-117 | the count is the number of indexes at which `getChild` succeeds |
| TreeView.IsLeaf | src/main/java/net/isammoc/zooviewer/tree/ZVTreeModel.java:120-126 | a leaf exactly when no entry of the node's list is live |
| TreeView.GetIndexOfChild | src/main/java/net/isammoc/zooviewer/tree/ZVTreeModel.java:134-142 | -1 exactly when the child is not a live entry of the parent's list |
| TreeView.LeafIffNoChildren | src/main/java/net/isammoc/zooviewer/tree/ZVTreeModel.java:111-126 | `isLeaf` holds exactly when `getChildCount` is 0 |
| TreeView.IndexThenChild | src/main/java/net/isammoc/zooviewer/tree/ZVTreeModel.java:102-142 | the child at the index `getIndexOfChild` reports equals the child asked about |
| TreeView.ChildThenIndex | src/main/java/net/isammoc/zooviewer/tree/ZVTreeModel.java:102-142 | in a well-formed cache `getIndexOfChild` of the child at an index is that index |
| TreeView.RemovalNotice | src/main/java/net/isammoc/zooviewer/tree/ZVTreeModel.java:39-44 | the removal names the node's tree path minus its last entry, the model's index unchanged, and the node |
| TreeView.RemovalUnderParent | src/main/java/net/isammoc/zooviewer/tree/ZVTreeModel.java:39-44 | in a well-formed cache the removal for a tracked non-root node is raised on its parent's tree path |
| TreeView.ListIndexIsViewIndex | src/main/java/net/isammoc/zooviewer/tree/ZVTreeModel.java:134-142 | a live child's position in the raw list is the position `getIndexOfChild` reports, and `getChild` there returns it |
| TreeView.DeletionNoticeMatchesView | src/main/java/net/isammoc/zooviewer/tree/ZVTreeModel.java:39-44 | deleting a live node tells the view to remove it under its parent's tree path, at the index the view showed it at just before |
| TreeView.InsertionNotice | src/main/java/net/isammoc/zooviewer/tree/ZVTreeModel.java:61-79 | a structure change exactly for the root record; otherwise an insertion under the tree path minus its last entry, at `getIndexOfChild`, or nothing when an exception is caught |
| TreeView.RootCreationNotice | src/main/java/net/isammoc/zooviewer/tree/ZVTreeModel.java:61-65 | seeding the root makes the view report a structure change at the new root |
| TreeView.CreationNoticeMatchesView | src/main/java/net/isammoc/zooviewer/tree/ZVTreeModel.java:61-79 | a child inserted by a listing is announced under its parent's tree path at the last position, where `getChild` now returns it |

## Left out

- The ZooKeeper client (`getData`, `getChildren`, `exists`, `create`, `setData`, `delete`, `close`) is not called. Each reply is an input of the operation that uses it, and the store for deletions is an abstract map.
- The session watcher, its lock/wait/notify handshake, the blocking constructor, the watcher executor and `synchronized` are left out. Their point is concurrency; every operation here is one atomic transition.
- The asynchronous `getChildren` dispatch and its recursive re-invocation are left out. A listing step returns the paths whose children it asks for (`pending`) instead of scheduling them.
- Listener registries (`EventListenerList`, `PropertyChangeSupport`) and their delivery order are left out. Model events are returned as ordered sequences. A record's property changes are returned by the `ZNode` setters only.
- `NodeCache.NodeDeleted`: drops the property changes of the tombstoning setters (`exists`, `stat`). A `Step` carries only the model events.
- `NodeCache.UpdateData`: drops the stat change the record's setter fires.
- `NodeCache.NodeDataChanged`: drops the data and stat changes the record's setters fire.
- `NodeCache.PopulateRoot`: drops the stat change fired while the new root is built.
- `Population.ChildStep`: drops the data, stat and `exists` changes fired on a revived or created child.
- `Population.Listing`: drops the stat change fired on the parent, besides those of its children.
- `close` is modelled only by its effect on the cache (`NodeCache.Empty`). Closing the client and removing listeners are I/O.
- Swing: `fireTreeNodesRemoved`/`Inserted`/`StructureChanged`, the `TreeModelEvent` they build, the tree-model listener list and `valueForPathChanged` (which always throws) are left out. The listeners' decisions are modelled as `Removal` and `Insertion` values.
- The commented-out body of the tree view's `nodeDataChanged` listener does nothing and is not modelled.
- `PathUtils.validatePath` in `deleteNode` is a library check whose code is not part of this model. Paths are taken as given.
- The tree view's `instanceof` checks cannot fail on typed arguments and are not modelled.
- `ZNode.StringHash`: characters are taken as single UTF-16 code units, as `String.hashCode` counts them. Surrogate pairs are not modelled separately.
- `ZNode.GetData`, `ZNode.GetStat`: the defensive copies are values here, so a copy is the stored value itself.
- `Deletion.DeleteNode`: the record found at a child path may have a path no longer than the parent's. The source would then recurse on that record's path. That may recurse without end until the stack overflows. It may also act on an unrelated path: it may delete that path if it exists, or catch the missing-node exception and go on. The model reports every such case as `aborted`. A cache whose records sit at their own paths, over a tree-shaped store, never reaches this case (`Subtree.DeleteNodeComplete` proves no abort there).
- `Deletion.DeleteNode`: the cache is only read during a deletion. Its updates come later from `nodeDeleted` notifications, which are modelled separately.
- `Deletion.Remove`: the service also refuses to delete its own `/zookeeper` subtree and may refuse for access control; the model refuses only the root, a missing path and a path with children.
- `Deletion.DeleteNode`: the two `exists` probes around `delete` only print and are not modelled. A `KeeperException` from them would end the call early; that case is not modelled.
- `NodeCache.NodeDeleted`: a tracked parent with a child list is a precondition. The source would throw a NullPointerException otherwise.
- `Population.Listing`: the listing callback's `rc` result code is not consulted by the source. A failed listing is modelled as no names delivered.
