/** The body of the `populateChildren` callback: one children listing of one
    parent, reconciled against the cache. For every listed name the child is
    created when untracked, revived when tombstoned, and left alone when live;
    each per-child exception is caught, so a failed child never disturbs its
    siblings. The recursive `populateChildren(childPath)` calls become the
    `pending` paths of the result. */
module Population {
  import opened Base
  import opened Lists
  import opened Paths
  import opened ZNode
  import opened NodeCache

  /** One listed child: its name and the reply to reading its data and stat. */
  datatype Entry = Entry(name: string, reply: Fetch)

  /** The reply to `exists(path, false)`: a stat (null when the node is gone),
      or an exception. */
  datatype Probe = Probed(stat: Option<Stat>) | ProbeFailed

  predicate ValidEntries(entries: seq<Entry>)
  {
    forall j :: 0 <= j < |entries| ==> ValidName(entries[j].name)
  }

  predicate AllFetched(entries: seq<Entry>)
  {
    forall j :: 0 <= j < |entries| ==> entries[j].reply.Fetched?
  }

  /** The path a listed child gets. */
  function ChildOf(parent: string, e: Entry): string
  {
    FullPath(parent, e.name)
  }

  /** Sequential composition of two steps. */
  function Then(s: Step, t: Step): Step
  {
    Step(t.cache, s.events + t.events, s.pending + t.pending)
  }

  /** Every event is a `Created` for the path requested at the same position. */
  predicate Announced(r: Step)
  {
    && |r.events| == |r.pending|
    && forall k :: 0 <= k < |r.events| ==> r.events[k] == Created(r.pending[k])
  }

  /** Composing two steps that announce what they request keeps that pairing. */
  lemma ThenAnnounced(s: Step, t: Step)
    requires Announced(s) && Announced(t)
    ensures Announced(Then(s, t))
  {
    var r := Then(s, t);
    forall k | 0 <= k < |r.events|
      ensures r.events[k] == Created(r.pending[k])
    {
      if k < |s.events| {
        assert r.events[k] == s.events[k] && r.pending[k] == s.pending[k];
      } else {
        assert r.events[k] == t.events[k - |s.events|] && r.pending[k] == t.pending[k - |s.events|];
      }
    }
  }

  /** Appending a created or revived child to the parent's list, announcing it and
      asking for its own children. `known` says whether the parent record was
      found when the callback started; without it (or without its list) the
      append throws a NullPointerException that the per-child handler catches,
      so the child stays in the cache but unattached and unannounced. */
  function Attach(c: Cache, parent: string, known: bool, child: string): (r: Step)
    ensures r.cache.nodes == c.nodes
    ensures r.cache.children.Keys == c.children.Keys
    ensures forall x :: x in c.children && x != parent ==> r.cache.children[x] == c.children[x]
    ensures known && parent in c.children ==>
      && r.cache.children[parent] == c.children[parent] + [child]
      && r.events == [Created(child)] && r.pending == [child]
    ensures !(known && parent in c.children) ==> r == Step(c, [], [])
  {
    if known && parent in c.children then
      Step(Cache(c.nodes, c.children[parent := c.children[parent] + [child]]), [Created(child)], [child])
    else
      Step(c, [], [])
  }

  /** The handling of one listed child. */
  function ChildStep(c: Cache, parent: string, known: bool, e: Entry): (r: Step)
    ensures var cp := ChildOf(parent, e);
      IsLive(c, cp) || e.reply.FetchFailed? ==> r == Step(c, [], [])
    ensures var cp := ChildOf(parent, e);
      !IsLive(c, cp) && e.reply.Fetched? ==>
        var base := c.children[cp := []];
        && IsLive(r.cache, cp)
        && r.cache.nodes == c.nodes[cp := r.cache.nodes[cp]]
        && r.cache.nodes[cp].data == e.reply.data
        && r.cache.nodes[cp].stat == Some(e.reply.stat)
        && (cp in c.nodes ==> r.cache.nodes[cp] == c.nodes[cp].(live := true, data := e.reply.data, stat := Some(e.reply.stat)))
        && (cp !in c.nodes ==> r.cache.nodes[cp].path == cp && r.cache.nodes[cp].name == NameOf(cp))
        && (known && parent in base ==>
              && r.cache.children == base[parent := base[parent] + [cp]]
              && r.events == [Created(cp)] && r.pending == [cp])
        && (!(known && parent in base) ==>
              r.cache.children == base && r.events == [] && r.pending == [])
  {
    var cp := ChildOf(parent, e);
    if cp in c.nodes then
      var child := c.nodes[cp];
      if child.live then Step(c, [], [])
      else match e.reply
        case FetchFailed => Step(c, [], [])
        case Fetched(data, stat) =>
          var revived := SetExists(SetStat(SetData(child, data).node, Some(stat)).node, true).node;
          Attach(Cache(c.nodes[cp := revived], c.children[cp := []]), parent, known, cp)
    else match e.reply
      case FetchFailed => Step(c, [], [])
      case Fetched(data, stat) =>
        var created := SetStat(NewLiveNode(cp, data), Some(stat)).node;
        Attach(Cache(c.nodes[cp := created], c.children[cp := []]), parent, known, cp)
  }

  /** The loop over the listed names. Records are only ever added or brought to
      life, never dropped or tombstoned; every event announces a creation and
      comes with exactly one children request for the same path; records at
      paths no entry names are untouched. */
  function Children(c: Cache, parent: string, known: bool, entries: seq<Entry>): (r: Step)
    ensures c.nodes.Keys <= r.cache.nodes.Keys
    ensures forall x :: IsLive(c, x) ==> IsLive(r.cache, x)
    ensures |r.events| == |r.pending|
    ensures forall k :: 0 <= k < |r.events| ==> r.events[k] == Created(r.pending[k])
    decreases |entries|
  {
    if |entries| == 0 then Step(c, [], [])
    else
      var first := ChildStep(c, parent, known, entries[0]);
      var rest := Children(first.cache, parent, known, entries[1..]);
      ChildStepBasics(c, parent, known, entries[0]);
      assert Announced(rest);
      ThenAnnounced(first, rest);
      Then(first, rest)
  }

  /** One listed child never drops or tombstones a record, and announces
      exactly what it requests. */
  lemma ChildStepBasics(c: Cache, parent: string, known: bool, e: Entry)
    ensures var r := ChildStep(c, parent, known, e);
            && c.nodes.Keys <= r.cache.nodes.Keys
            && (forall x :: IsLive(c, x) ==> IsLive(r.cache, x))
            && Announced(r)
  {
  }

  /** The whole callback: refresh the parent's stat (any exception is caught,
      including the one a missing parent record causes), then walk the names. A
      failed listing delivers no names, and the loop over them throws before
      doing anything. */
  function Listing(c: Cache, parent: string, probe: Probe, listing: Option<seq<Entry>>): (r: Step)
    ensures c.nodes.Keys <= r.cache.nodes.Keys
    ensures forall x :: IsLive(c, x) ==> IsLive(r.cache, x)
    ensures |r.events| == |r.pending|
    ensures forall k :: 0 <= k < |r.events| ==> r.events[k] == Created(r.pending[k])
    ensures listing.None? ==>
      && r.events == [] && r.pending == []
      && r.cache.children == c.children && r.cache.nodes.Keys == c.nodes.Keys
    ensures parent !in c.nodes && listing.None? ==> r.cache == c
  {
    var known := parent in c.nodes;
    var c1 := if known && probe.Probed?
      then Cache(c.nodes[parent := SetStat(c.nodes[parent], probe.stat).node], c.children)
      else c;
    match listing
    case None => Step(c1, [], [])
    case Some(entries) => Children(c1, parent, known, entries)
  }

  lemma ChildrenUnfold(c: Cache, parent: string, known: bool, a: seq<Entry>)
    requires |a| > 0
    ensures var first := ChildStep(c, parent, known, a[0]);
            Children(c, parent, known, a) == Then(first, Children(first.cache, parent, known, a[1..]))
  {
  }

  lemma ThenAssociative(x: Step, y: Step, z: Step)
    ensures Then(x, Then(y, z)) == Then(Then(x, y), z)
  {
    assert x.events + (y.events + z.events) == (x.events + y.events) + z.events;
    assert x.pending + (y.pending + z.pending) == (x.pending + y.pending) + z.pending;
  }

  /** Walking two listings one after the other is walking their concatenation. */
  lemma {:induction false} ChildrenAppend(c: Cache, parent: string, known: bool, a: seq<Entry>, b: seq<Entry>)
    ensures var r1 := Children(c, parent, known, a);
            Children(c, parent, known, a + b) == Then(r1, Children(r1.cache, parent, known, b))
    decreases |a|
  {
    if |a| == 0 {
      assert a + b == b;
      var r := Children(c, parent, known, b);
      assert Then(Step(c, [], []), r) == r;
    } else {
      var first := ChildStep(c, parent, known, a[0]);
      assert (a + b)[0] == a[0];
      assert (a + b)[1..] == a[1..] + b;
      ChildrenUnfold(c, parent, known, a + b);
      ChildrenUnfold(c, parent, known, a);
      ChildrenAppend(first.cache, parent, known, a[1..], b);
      var mid := Children(first.cache, parent, known, a[1..]);
      var last := Children(mid.cache, parent, known, b);
      ThenAssociative(first, mid, last);
    }
  }

  /** Failure isolation: a child whose read fails is processed as if it had not
      been listed at all. */
  lemma FailedChildIsSkipped(c: Cache, parent: string, known: bool, entries: seq<Entry>, i: int)
    requires 0 <= i < |entries| && entries[i].reply.FetchFailed?
    ensures Children(c, parent, known, entries)
            == Children(c, parent, known, entries[..i] + entries[i + 1..])
  {
    var a := entries[..i];
    var b := entries[i + 1..];
    assert entries == a + ([entries[i]] + b);
    ChildrenAppend(c, parent, known, a, [entries[i]] + b);
    ChildrenAppend(c, parent, known, a, b);
    var r1 := Children(c, parent, known, a);
    var skipped := ChildStep(r1.cache, parent, known, entries[i]);
    assert skipped == Step(r1.cache, [], []);
    assert ([entries[i]] + b)[1..] == b;
    var rest := Children(r1.cache, parent, known, b);
    assert Children(r1.cache, parent, known, [entries[i]] + b) == Then(skipped, rest);
    assert Then(skipped, rest) == rest;
  }

  /** A listing whose children are all live already changes nothing and fires
      nothing. */
  lemma {:induction false} ReplayIsSilent(c: Cache, parent: string, known: bool, entries: seq<Entry>)
    requires forall j :: 0 <= j < |entries| ==> IsLive(c, ChildOf(parent, entries[j]))
    ensures Children(c, parent, known, entries) == Step(c, [], [])
    decreases |entries|
  {
    if |entries| > 0 {
      ReplayIsSilent(c, parent, known, entries[1..]);
    }
  }

  /** A live record missing from the parent's list stays missing after one
      listed child: only a child that was not live is appended. */
  lemma UnlistedAfterStep(c: Cache, parent: string, known: bool, e: Entry, x: string)
    requires IsLive(c, x) && parent in c.children && x !in c.children[parent]
    ensures var r := ChildStep(c, parent, known, e);
            parent in r.cache.children && x !in r.cache.children[parent]
  {
  }

  /** A live record missing from the parent's list stays missing, and live,
      whatever the listing names: the loop appends only children that were not
      live. */
  lemma {:induction false} UnlistedAfterChildren(c: Cache, parent: string, known: bool, entries: seq<Entry>, x: string)
    requires IsLive(c, x) && parent in c.children && x !in c.children[parent]
    ensures var r := Children(c, parent, known, entries);
            parent in r.cache.children && x !in r.cache.children[parent]
    decreases |entries|
  {
    if |entries| > 0 {
      var first := ChildStep(c, parent, known, entries[0]);
      ChildrenUnfold(c, parent, known, entries);
      UnlistedAfterStep(c, parent, known, entries[0], x);
      ChildStepBasics(c, parent, known, entries[0]);
      UnlistedAfterChildren(first.cache, parent, known, entries[1..], x);
    }
  }

  /** The callback never lists a live record its parent's list lacks: a live
      child left out of a revived node's fresh list stays out after every later
      listing of that node. */
  lemma LiveChildStaysUnlisted(c: Cache, parent: string, probe: Probe, listing: Option<seq<Entry>>, x: string)
    requires IsLive(c, x) && parent in c.children && x !in c.children[parent]
    ensures var r := Listing(c, parent, probe, listing);
            IsLive(r.cache, x) && parent in r.cache.children && x !in r.cache.children[parent]
  {
    var known := parent in c.nodes;
    var c1 := if known && probe.Probed?
      then Cache(c.nodes[parent := SetStat(c.nodes[parent], probe.stat).node], c.children)
      else c;
    assert IsLive(c1, x);
    if listing.Some? {
      UnlistedAfterChildren(c1, parent, known, listing.value, x);
    }
  }

  /** After a listing whose reads all succeed, every listed child is live. */
  lemma {:induction false} ChildrenMakeLive(c: Cache, parent: string, known: bool, entries: seq<Entry>)
    requires AllFetched(entries)
    ensures forall j :: 0 <= j < |entries| ==>
              IsLive(Children(c, parent, known, entries).cache, ChildOf(parent, entries[j]))
    decreases |entries|
  {
    if |entries| > 0 {
      var first := ChildStep(c, parent, known, entries[0]);
      var rest := Children(first.cache, parent, known, entries[1..]);
      ChildrenUnfold(c, parent, known, entries);
      assert Children(c, parent, known, entries).cache == rest.cache;
      assert IsLive(first.cache, ChildOf(parent, entries[0]));
      assert IsLive(rest.cache, ChildOf(parent, entries[0]));
      ChildrenMakeLive(first.cache, parent, known, entries[1..]);
      forall j | 0 < j < |entries|
        ensures IsLive(rest.cache, ChildOf(parent, entries[j]))
      {
        assert entries[1..][j - 1] == entries[j];
      }
    }
  }

  /** Records at paths that no entry names come through the walk untouched. */
  lemma {:induction false} ChildrenFrame(c: Cache, parent: string, known: bool, entries: seq<Entry>, x: string)
    requires forall j :: 0 <= j < |entries| ==> ChildOf(parent, entries[j]) != x
    ensures var r := Children(c, parent, known, entries);
            (x in r.cache.nodes <==> x in c.nodes)
            && (x in c.nodes ==> r.cache.nodes[x] == c.nodes[x])
    decreases |entries|
  {
    if |entries| > 0 {
      var first := ChildStep(c, parent, known, entries[0]);
      assert ChildOf(parent, entries[0]) != x;
      assert x in first.cache.nodes <==> x in c.nodes;
      assert x in c.nodes ==> first.cache.nodes[x] == c.nodes[x];
      forall j | 0 <= j < |entries[1..]|
        ensures ChildOf(parent, entries[1..][j]) != x
      {
        assert entries[1..][j] == entries[j + 1];
      }
      ChildrenFrame(first.cache, parent, known, entries[1..], x);
    }
  }

  /** The same names listed again, with fresh replies to the reads. */
  function Relisted(entries: seq<Entry>, again: seq<Fetch>): (r: seq<Entry>)
    requires |again| == |entries|
    ensures |r| == |entries|
    ensures forall j :: 0 <= j < |r| ==> r[j] == Entry(entries[j].name, again[j])
  {
    if |entries| == 0 then []
    else [Entry(entries[0].name, again[0])] + Relisted(entries[1..], again[1..])
  }

  /** Delivering the same listing twice: the second delivery (with the same stat
      for the parent, and whatever replies to the reads) changes nothing and
      fires no events. */
  lemma ListingIdempotent(c: Cache, parent: string, probe: Probe, entries: seq<Entry>, again: seq<Fetch>)
    requires ValidEntries(entries) && AllFetched(entries)
    requires |again| == |entries|
    ensures var r := Listing(c, parent, probe, Some(entries));
            Listing(r.cache, parent, probe, Some(Relisted(entries, again))) == Step(r.cache, [], [])
  {
    var known := parent in c.nodes;
    var c1 := if known && probe.Probed?
      then Cache(c.nodes[parent := SetStat(c.nodes[parent], probe.stat).node], c.children)
      else c;
    var r := Children(c1, parent, known, entries);
    assert r == Listing(c, parent, probe, Some(entries));
    forall j | 0 <= j < |entries|
      ensures ChildOf(parent, entries[j]) != parent
    {
      assert |FullPath(parent, entries[j].name)| > |parent|;
    }
    ChildrenMakeLive(c1, parent, known, entries);
    var replay := Relisted(entries, again);
    var known2 := parent in r.cache.nodes;
    var c2 := if known2 && probe.Probed?
      then Cache(r.cache.nodes[parent := SetStat(r.cache.nodes[parent], probe.stat).node], r.cache.children)
      else r.cache;
    ChildrenFrame(c1, parent, known, entries, parent);
    assert known2 == known;
    if known && probe.Probed? {
      assert r.cache.nodes[parent] == c1.nodes[parent];
      assert c2 == r.cache;
    }
    forall j | 0 <= j < |replay|
      ensures IsLive(c2, ChildOf(parent, replay[j]))
    {
      assert ChildOf(parent, replay[j]) == ChildOf(parent, entries[j]);
    }
    ReplayIsSilent(c2, parent, known2, replay);
  }

  /** The cache after inserting a live record `n` for child `cp` of `parent`:
      the child gets an empty list of its own and is appended to the parent's. */
  function Inserted(c: Cache, parent: string, cp: string, n: Node): Cache
    requires parent in c.children
  {
    Cache(c.nodes[cp := n], c.children[cp := []][parent := c.children[parent] + [cp]])
  }

  lemma InsertedListable(c: Cache, parent: string, cp: string, n: Node)
    requires Wf(c) && parent in c.nodes && !IsLive(c, cp) && n.live
    requires cp != parent && ParentPath(cp) == Some(parent)
    ensures var c' := Inserted(c, parent, cp, n);
            forall q, i :: q in c'.children && 0 <= i < |c'.children[q]| ==> Listable(c', q, c'.children[q][i])
  {
    var c' := Inserted(c, parent, cp, n);
    forall q, i | q in c'.children && 0 <= i < |c'.children[q]|
      ensures Listable(c', q, c'.children[q][i])
    {
      var x := c'.children[q][i];
      if q == cp {
      } else if q == parent && i == |c.children[parent]| {
        assert x == cp;
      } else {
        assert x == c.children[q][i];
        assert Listable(c, q, x);
        assert x != cp;
      }
    }
  }

  lemma InsertedNoDups(c: Cache, parent: string, cp: string, n: Node)
    requires Wf(c) && parent in c.nodes && !IsLive(c, cp) && cp != parent
    ensures var c' := Inserted(c, parent, cp, n);
            forall q :: q in c'.children ==> NoDups(c'.children[q])
  {
    var c' := Inserted(c, parent, cp, n);
    forall q | q in c'.children
      ensures NoDups(c'.children[q])
    {
      if q == parent {
        forall i | 0 <= i < |c.children[parent]|
          ensures c.children[parent][i] != cp
        {
          assert Listable(c, parent, c.children[parent][i]);
        }
        AppendFresh(c.children[parent], cp);
      }
    }
  }

  /** Inserting a live record for a new child of a tracked parent, with an empty
      list of its own and appended to the parent's list, keeps the cache well
      formed. */
  lemma InsertChildKeepsWf(c: Cache, parent: string, name: string, n: Node)
    requires Wf(c) && parent in c.nodes && ValidName(name)
    requires !IsLive(c, FullPath(parent, name))
    requires n.path == FullPath(parent, name) && n.live
    ensures Wf(Inserted(c, parent, FullPath(parent, name), n))
  {
    var cp := FullPath(parent, name);
    var c' := Inserted(c, parent, cp, n);
    assert cp != parent && Canonical(cp) && ParentPath(cp) == Some(parent) by {
      FullPathCanonical(parent, name);
      CanonicalShape(parent);
      ParentOfFullPath(parent, name);
    }
    assert c'.nodes.Keys == c'.children.Keys by {
      assert c'.nodes.Keys == c.nodes.Keys + {cp};
      assert c'.children.Keys == c.children.Keys + {cp};
    }
    InsertedListable(c, parent, cp, n);
    InsertedNoDups(c, parent, cp, n);
  }

  /** Creating or reviving one valid child of a tracked parent keeps the cache
      well formed. */
  lemma ChildStepKeepsWf(c: Cache, parent: string, e: Entry)
    requires Wf(c) && parent in c.nodes && ValidName(e.name)
    ensures Wf(ChildStep(c, parent, true, e).cache)
  {
    var cp := ChildOf(parent, e);
    var r := ChildStep(c, parent, true, e);
    if !IsLive(c, cp) && e.reply.Fetched? {
      assert |cp| > |parent| by { FullPathCanonical(parent, e.name); }
      var n := r.cache.nodes[cp];
      assert n.path == cp by {
        if cp in c.nodes { assert c.nodes[cp].path == cp; }
      }
      InsertChildKeepsWf(c, parent, e.name, n);
      assert r.cache == Inserted(c, parent, cp, n);
    }
  }

  lemma {:induction false} ChildrenKeepWf(c: Cache, parent: string, entries: seq<Entry>)
    requires Wf(c) && parent in c.nodes && ValidEntries(entries)
    ensures Wf(Children(c, parent, true, entries).cache)
    decreases |entries|
  {
    if |entries| > 0 {
      ChildStepKeepsWf(c, parent, entries[0]);
      var first := ChildStep(c, parent, true, entries[0]);
      ChildrenKeepWf(first.cache, parent, entries[1..]);
    }
  }

  /** The callback on a tracked parent, listing valid names, keeps the cache well
      formed. */
  lemma ListingKeepsWf(c: Cache, parent: string, probe: Probe, listing: Option<seq<Entry>>)
    requires Wf(c) && parent in c.nodes
    requires listing.Some? ==> ValidEntries(listing.value)
    ensures Wf(Listing(c, parent, probe, listing).cache)
  {
    var c1 := if probe.Probed?
      then Cache(c.nodes[parent := SetStat(c.nodes[parent], probe.stat).node], c.children)
      else c;
    forall q, i | q in c1.children && 0 <= i < |c1.children[q]|
      ensures Listable(c1, q, c1.children[q][i])
    {
      assert Listable(c, q, c.children[q][i]);
    }
    assert Wf(c1);
    if listing.Some? {
      ChildrenKeepWf(c1, parent, listing.value);
    }
  }

  /** A tracked root with a tombstoned child `/a` below it. */
  function TombstonedA(): (c: Cache)
    ensures Wf(c)
    ensures IsLive(c, Root) && "/a" in c.nodes && !IsLive(c, "/a")
    ensures c.nodes.Keys == {Root, "/a"}
  {
    var c := Cache(
      map[Root := Node(Root, Root, true, None, None), "/a" := Node("/a", "a", false, None, None)],
      map[Root := [], "/a" := []]);
    FullPathCanonical(Root, "a");
    assert FullPath(Root, "a") == "/a";
    ParentOfFullPath(Root, "a");
    c
  }

  /** A listing of one name after a failed stat probe is that name's step. */
  lemma ListingOfOne(c: Cache, parent: string, e: Entry)
    ensures Listing(c, parent, ProbeFailed, Some([e])) == ChildStep(c, parent, parent in c.nodes, e)
  {
    var known := parent in c.nodes;
    var first := ChildStep(c, parent, known, e);
    assert Listing(c, parent, ProbeFailed, Some([e])) == Children(c, parent, known, [e]);
    assert Children(c, parent, known, [e]) == Then(first, Step(first.cache, [], [])) by {
      ChildrenUnfold(c, parent, known, [e]);
      assert [e][1..] == [];
    }
    assert first.events + [] == first.events;
    assert first.pending + [] == first.pending;
  }

  /** The callback treats a tombstoned parent as known: a listing delivered for a
      deleted `/a` attaches a live `/a/b` below it and announces it, so a live
      record can sit under a record that no longer exists. */
  lemma LiveChildUnderTombstone(st: Stat)
    ensures var r := Listing(TombstonedA(), "/a", ProbeFailed, Some([Entry("b", Fetched(None, st))]));
            && IsLive(r.cache, "/a/b") && ParentPath("/a/b") == Some("/a") && !IsLive(r.cache, "/a")
            && r.events == [Created("/a/b")]
  {
    var c := TombstonedA();
    var e := Entry("b", Fetched(None, st));
    assert FullPath("/a", "b") == "/a/b";
    ParentOfFullPath("/a", "b");
    assert ChildOf("/a", e) == "/a/b";
    ListingOfOne(c, "/a", e);
    FetchedChildAnnounced(c, "/a", e);
  }

  /** A fetched child that is not live, listed under a tracked parent with a
      list, becomes live and is announced, and the parent record is kept. */
  lemma FetchedChildAnnounced(c: Cache, parent: string, e: Entry)
    requires parent in c.nodes && parent in c.children && e.reply.Fetched?
    requires !IsLive(c, ChildOf(parent, e)) && ChildOf(parent, e) != parent
    ensures var r := ChildStep(c, parent, true, e);
            && IsLive(r.cache, ChildOf(parent, e))
            && r.cache.nodes[parent] == c.nodes[parent]
            && r.events == [Created(ChildOf(parent, e))]
  {
    assert parent in c.children[ChildOf(parent, e) := []];
  }

  /** After a listing whose reads all succeed, `addNode` under any listed child
      sends the create exactly when the new path is not live already. */
  lemma AddUnderListedChild(c: Cache, parent: string, probe: Probe, entries: seq<Entry>,
                            j: int, n: string, d: Option<Bytes>)
    requires Wf(c) && parent in c.nodes && ValidEntries(entries) && AllFetched(entries)
    requires 0 <= j < |entries| && ValidName(n)
    ensures var r := Listing(c, parent, probe, Some(entries));
            var cp := ChildOf(parent, entries[j]);
            AddNode(r.cache, FullPath(cp, n), d) == if IsLive(r.cache, FullPath(cp, n))
              then Rejected(NodeAlreadyExists) else CreateSent(FullPath(cp, n), d)
  {
    var c1 := if probe.Probed?
      then Cache(c.nodes[parent := SetStat(c.nodes[parent], probe.stat).node], c.children)
      else c;
    var cp := ChildOf(parent, entries[j]);
    ChildrenMakeLive(c1, parent, true, entries);
    assert IsLive(Listing(c, parent, probe, Some(entries)).cache, cp);
    assert Canonical(parent);
    FullPathCanonical(parent, entries[j].name);
    CanonicalShape(cp);
    ParentOfFullPath(cp, n);
  }
}
