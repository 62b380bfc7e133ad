/**
 Walking a whole database: `walk_all_btrees` (src/btree_walker.rs:46-103), which splits the
 pages into trees and unowned pages, and `collect_leaf_pages` (src/btree_walker.rs:387-445),
 which finds the schema table's leaves. The schema rows come in already parsed.
 */
module DatabaseWalk {
  import opened Common
  import opened BtreePages
  import opened BtreeWalker
  import opened WalkTheorems
  import opened Graphs

  /** A schema row; `rootPage` is 1-based and 0 for a dropped object. */
  datatype MasterEntry = MasterEntry(objType: string, name: string, rootPage: nat)

  datatype BTreeEntry = BTreeEntry(objType: string, name: string, rootPage: nat, pages: seq<nat>)

  datatype BTreeWalkResult = BTreeWalkResult(btrees: map<nat, BTreeEntry>, unownedPages: seq<nat>)

  /** How a root is walked. */
  type Walker = nat -> seq<nat>

  function WalkerOf(read: Reader, pageCount: nat, pageSize: nat): Walker
    requires pageSize >= 512
  {
    root => Walk(read, pageCount, pageSize, root)
  }

  /** The trees by root; the last row that names a root describes it. */
  function Trees(walk: Walker, entries: seq<MasterEntry>): map<nat, BTreeEntry> {
    if entries == [] then
      map[0 := BTreeEntry("table", "sqlite_master", 0, walk(0))]
    else
      var before, last := Trees(walk, entries[..|entries| - 1]), entries[|entries| - 1];
      if last.rootPage == 0 then before
      else
        var root := last.rootPage - 1;
        before[root := BTreeEntry(last.objType, last.name, root, walk(root))]
  }

  ghost predicate Owned(btrees: map<nat, BTreeEntry>, page: nat) {
    exists root <- btrees.Keys :: page in btrees[root].pages
  }

  method WalkAllBtrees(pageCount: nat, pageSize: nat, read: Reader, entries: seq<MasterEntry>)
    returns (r: BTreeWalkResult)
    requires pageSize >= 512
    ensures r.btrees == Trees(WalkerOf(read, pageCount, pageSize), entries)
    ensures forall root: nat :: root in r.btrees <==> root == 0 || NamesRoot(entries, root)
    ensures forall root <- r.btrees.Keys ::
              && r.btrees[root].rootPage == root && r.btrees[root].pages == Walk(read, pageCount, pageSize, root)
              && DescribedBy(entries, root, r.btrees[root].objType, r.btrees[root].name)
    ensures StrictlyAscending(r.unownedPages)
    ensures forall p: nat :: p in r.unownedPages <==> p < pageCount && !Owned(r.btrees, p)
  {
    hide Trees, Owned, WalkerOf, StrictlyAscending;
    var btrees, allOwned := WalkTrees(pageCount, pageSize, read, entries);
    var unowned := PagesOutside(pageCount, allOwned);
    r := BTreeWalkResult(btrees, unowned);
    forall root: nat
      ensures root in r.btrees <==> root == 0 || NamesRoot(entries, root)
      ensures root in r.btrees ==>
                && r.btrees[root].rootPage == root && r.btrees[root].pages == Walk(read, pageCount, pageSize, root)
                && DescribedBy(entries, root, r.btrees[root].objType, r.btrees[root].name)
    {
      TreesAre(WalkerOf(read, pageCount, pageSize), entries, root);
      WalkerIs(read, pageCount, pageSize, root);
    }
  }

  lemma WalkerIs(read: Reader, pageCount: nat, pageSize: nat, root: nat)
    requires pageSize >= 512
    ensures WalkerOf(read, pageCount, pageSize)(root) == Walk(read, pageCount, pageSize, root)
  {
  }

  /** Some row names the 1-based page of this 0-based root. */
  ghost predicate NamesRoot(entries: seq<MasterEntry>, root: nat) {
    exists i :: 0 <= i < |entries| && entries[i].rootPage == root + 1
  }

  /** Row `i` is the last that names this root. */
  ghost predicate LastRow(entries: seq<MasterEntry>, root: nat, i: nat) {
    && i < |entries| && entries[i].rootPage == root + 1
    && forall j :: i < j < |entries| ==> entries[j].rootPage != root + 1
  }

  /** Type and name of a tree: those of the last row that names it, or the schema table's for page 0 if none does. */
  ghost predicate DescribedBy(entries: seq<MasterEntry>, root: nat, objType: string, name: string) {
    || (exists i: nat :: LastRow(entries, root, i) && objType == entries[i].objType && name == entries[i].name)
    || (root == 0 && !NamesRoot(entries, 0) && objType == "table" && name == "sqlite_master")
  }

  /** The trees of a database: a tree for page 0 and for every page that a row names, each described by its last row. */
  lemma {:induction false} TreesAre(walk: Walker, entries: seq<MasterEntry>, root: nat)
    ensures root in Trees(walk, entries) <==> root == 0 || NamesRoot(entries, root)
    ensures root in Trees(walk, entries) ==>
              var e := Trees(walk, entries)[root];
              e.rootPage == root && e.pages == walk(root) && DescribedBy(entries, root, e.objType, e.name)
  {
    if entries != [] {
      var init, last := entries[..|entries| - 1], entries[|entries| - 1];
      TreesAre(walk, init, root);
      if last.rootPage == root + 1 {
        assert LastRow(entries, root, |init|);
      } else {
        RowsBefore(init, last, root);
        assert entries == init + [last];
      }
    }
  }

  /** A row that does not name the root changes neither who names it nor what describes it. */
  lemma RowsBefore(init: seq<MasterEntry>, last: MasterEntry, root: nat)
    requires last.rootPage != root + 1
    ensures NamesRoot(init + [last], root) <==> NamesRoot(init, root)
    ensures forall objType: string, name: string ::
              DescribedBy(init, root, objType, name) ==> DescribedBy(init + [last], root, objType, name)
  {
    var entries := init + [last];
    if i :| 0 <= i < |init| && init[i].rootPage == root + 1 {
      assert entries[i].rootPage == root + 1;
    }
    if i :| 0 <= i < |entries| && entries[i].rootPage == root + 1 {
      assert init[i].rootPage == root + 1;
    }
    forall objType: string, name: string | DescribedBy(init, root, objType, name)
      ensures DescribedBy(entries, root, objType, name)
    {
      if i: nat :| LastRow(init, root, i) && objType == init[i].objType && name == init[i].name {
        assert LastRow(entries, root, i) && entries[i] == init[i];
      }
    }
  }

  /** The filter over all pages, src/btree_walker.rs:91-97. */
  method PagesOutside(pageCount: nat, allOwned: set<nat>) returns (unowned: seq<nat>)
    ensures StrictlyAscending(unowned)
    ensures forall x: nat :: x in unowned <==> x < pageCount && x !in allOwned
  {
    unowned := [];
    for p := 0 to pageCount
      invariant StrictlyAscending(unowned)
      invariant forall x: nat :: x in unowned <==> x < p && x !in allOwned
    {
      if p !in allOwned {
        assert forall k :: 0 <= k < |unowned| ==> unowned[k] in unowned;
        unowned := unowned + [p];
      }
    }
  }

  /** src/btree_walker.rs:54-89 */
  method WalkTrees(pageCount: nat, pageSize: nat, read: Reader, entries: seq<MasterEntry>)
    returns (btrees: map<nat, BTreeEntry>, allOwned: set<nat>)
    requires pageSize >= 512
    ensures btrees == Trees(WalkerOf(read, pageCount, pageSize), entries)
    ensures forall p: nat :: p in allOwned <==> Owned(btrees, p)
  {
    ghost var walk := WalkerOf(read, pageCount, pageSize);
    var masterPages := WalkBtree(0, pageCount, pageSize, read);
    assert masterPages == walk(0);
    btrees := map[0 := BTreeEntry("table", "sqlite_master", 0, masterPages)];
    allOwned := Elements(masterPages);
    assert entries[..0] == [];
    for i := 0 to |entries|
      invariant btrees == Trees(walk, entries[..i]) && TreesAreWalks(walk, btrees)
      invariant forall p: nat :: p in allOwned <==> Owned(btrees, p)
    {
      assert entries[..i + 1][..i] == entries[..i];
      if entries[i].rootPage != 0 {
        var root := entries[i].rootPage - 1;
        var pages := WalkBtree(root, pageCount, pageSize, read);
        assert pages == walk(root);
        var entry := BTreeEntry(entries[i].objType, entries[i].name, root, pages);
        OwnedAfterInsert(btrees, root, entry);
        allOwned := allOwned + Elements(pages);
        btrees := btrees[root := entry];
      }
    }
    assert entries[..|entries|] == entries;
  }

  /** Every tree's page list is the walk from its root, so two rows naming one root agree. */
  ghost predicate TreesAreWalks(walk: Walker, btrees: map<nat, BTreeEntry>) {
    forall root <- btrees.Keys :: btrees[root].pages == walk(root)
  }

  lemma OwnedAfterInsert(btrees: map<nat, BTreeEntry>, root: nat, entry: BTreeEntry)
    requires root in btrees ==> btrees[root].pages == entry.pages
    ensures forall p: nat :: Owned(btrees[root := entry], p) <==> Owned(btrees, p) || p in entry.pages
  {
    var after := btrees[root := entry];
    forall p: nat
      ensures Owned(after, p) <==> Owned(btrees, p) || p in entry.pages
    {
      if p in entry.pages {
        assert p in after[root].pages;
      }
      if Owned(btrees, p) {
        var r :| r in btrees.Keys && p in btrees[r].pages;
        assert p in after[r].pages;
      }
    }
  }

  // ---------- the partition ----------

  ghost predicate TreesDisjoint(btrees: map<nat, BTreeEntry>) {
    forall a <- btrees.Keys, b <- btrees.Keys, p: nat ::
      p in btrees[a].pages && p in btrees[b].pages ==> a == b
  }

  ghost function TotalPages(btrees: map<nat, BTreeEntry>): nat
    decreases btrees.Keys
  {
    if btrees == map[] then 0
    else
      var root :| root in btrees.Keys;
      assert (btrees - {root}).Keys < btrees.Keys;
      |btrees[root].pages| + TotalPages(btrees - {root})
  }

  lemma {:induction false} TreesHoldWalks(walk: Walker, entries: seq<MasterEntry>)
    ensures TreesAreWalks(walk, Trees(walk, entries))
  {
    if entries != [] {
      TreesHoldWalks(walk, entries[..|entries| - 1]);
    }
  }

  lemma StrictSeqAsSet(s: seq<nat>)
    requires StrictlyAscending(s)
    ensures |Elements(s)| == |s|
  {
    if s != [] {
      var init, last := s[..|s| - 1], s[|s| - 1];
      StrictSeqAsSet(init);
      assert s == init + [last];
      assert Elements(s) == Elements(init) + {last};
      assert last !in init;
    }
  }

  /** The pages of disjoint, duplicate-free trees, counted. */
  lemma {:induction false} TotalIsUnion(btrees: map<nat, BTreeEntry>, owned: set<nat>)
    requires TreesDisjoint(btrees)
    requires forall root <- btrees.Keys :: StrictlyAscending(btrees[root].pages)
    requires forall p: nat :: p in owned <==> Owned(btrees, p)
    ensures TotalPages(btrees) == |owned|
    decreases btrees.Keys
  {
    if btrees == map[] {
      assert owned == {};
    } else {
      var root :| root in btrees.Keys && TotalPages(btrees) == |btrees[root].pages| + TotalPages(btrees - {root});
      var mine := Elements(btrees[root].pages);
      var rest := btrees - {root};
      assert rest.Keys < btrees.Keys;
      forall p: nat
        ensures p in owned - mine <==> Owned(rest, p)
      {
        if p in owned - mine {
          var r :| r in btrees.Keys && p in btrees[r].pages;
          assert p in rest[r].pages;
        }
      }
      StrictSeqAsSet(btrees[root].pages);
      TotalIsUnion(rest, owned - mine);
      assert mine <= owned by {
        forall p <- mine ensures p in owned { assert p in btrees[root].pages; }
      }
      assert |owned - mine| + |mine| == |owned|;
    }
  }

  lemma {:induction false} RangeSize(n: nat)
    ensures |Below(n)| == n
  {
    if n > 0 {
      RangeSize(n - 1);
    }
  }

  /**
   Owned plus unowned pages make up the database, when no page is in two trees and no page past
   the page count can be read.
   */
  lemma {:induction false} PagesArePartitioned(read: Reader, pageCount: nat, pageSize: nat, entries: seq<MasterEntry>,
                                               unowned: seq<nat>)
    requires pageSize >= 512
    requires forall p: nat :: p >= pageCount ==> read(p).None?
    requires TreesDisjoint(Trees(WalkerOf(read, pageCount, pageSize), entries))
    requires StrictlyAscending(unowned)
    requires forall p: nat ::
               p in unowned <==> p < pageCount && !Owned(Trees(WalkerOf(read, pageCount, pageSize), entries), p)
    ensures TotalPages(Trees(WalkerOf(read, pageCount, pageSize), entries)) + |unowned| == pageCount
  {
    var btrees := Trees(WalkerOf(read, pageCount, pageSize), entries);
    TreesHoldWalks(WalkerOf(read, pageCount, pageSize), entries);
    forall root <- btrees.Keys
      ensures StrictlyAscending(btrees[root].pages) && forall p <- btrees[root].pages :: p < pageCount
    {
      WalkIsSound(read, pageCount, pageSize, root);
    }
    var all, free := Below(pageCount), Elements(unowned);
    var owned := all - free;
    forall p: nat
      ensures p in owned <==> Owned(btrees, p)
    {
    }
    TotalIsUnion(btrees, owned);
    StrictSeqAsSet(unowned);
    RangeSize(pageCount);
    assert free <= all && |owned| == |all| - |free|;
  }

  // ---------- schema leaves ----------

  /** Long enough to have a type byte. */
  predicate HasType(read: Reader, page: nat, typeByte: Byte) {
    && read(page).Some?
    && |read(page).value| >= HeaderOffset(page) + 1
    && read(page).value[HeaderOffset(page)] == typeByte
  }

  ghost function TableGraph(read: Reader): Graph {
    page => if HasType(read, page, INTERIOR_TABLE)
            then set c <- ZeroBased(InteriorChildren(read(page).value, HeaderOffset(page)))
            else {}
  }

  ghost predicate IsSchemaLeaf(read: Reader, root: nat, page: nat) {
    Reach(TableGraph(read), root, page) && HasType(read, page, LEAF_TABLE)
  }

  /** src/btree_walker.rs:387-399: each readable table leaf under the root, once. */
  method CollectLeafPages(root: nat, read: Reader) returns (leaves: seq<nat>)
    requires root < TWO_32
    ensures Distinct(leaves)
    ensures forall p: nat :: p in leaves <==> IsSchemaLeaf(read, root, p)
  {
    var visited;
    visited, leaves := CollectLeafPagesInner(root, read, {}, []);
    forall p: nat
      ensures p in visited <==> Reach(TableGraph(read), root, p)
    {
      if p in visited {
        assert ReachedFrom(read, {root}, p);
      }
      if Reach(TableGraph(read), root, p) {
        ReachStaysInside(TableGraph(read), root, p, visited);
      }
    }
  }

  ghost predicate ReachedFrom(read: Reader, roots: set<nat>, page: nat) {
    exists r <- roots :: Reach(TableGraph(read), r, page)
  }

  /** What has been added to the visited set is reached from `roots` and closed under children. */
  ghost predicate Explored(read: Reader, roots: set<nat>, visited: set<nat>, visited': set<nat>) {
    && visited <= visited' && roots <= visited'
    && (forall p: nat :: p in visited' && p !in visited ==> ReachedFrom(read, roots, p))
    && (forall p: nat :: p in visited' && p !in visited ==> TableGraph(read)(p) <= visited')
  }

  ghost predicate LeavesAdded(read: Reader, leaves: seq<nat>, more: set<nat>, leaves': seq<nat>) {
    && leaves <= leaves'
    && Distinct(leaves'[|leaves|..])
    && forall p: nat :: p in leaves'[|leaves|..] <==> p in more && HasType(read, p, LEAF_TABLE)
  }

  method CollectLeafPagesInner(page: nat, read: Reader, visited: set<nat>, leaves: seq<nat>)
    returns (visited': set<nat>, leaves': seq<nat>)
    requires page < TWO_32
    ensures Explored(read, {page}, visited, visited')
    ensures LeavesAdded(read, leaves, visited' - visited, leaves')
    decreases Unseen(visited), 0
  {
    visited', leaves' := visited, leaves;
    if page in visited {
      return;
    }
    visited' := visited + {page};
    var hdr := if page == 0 then 100 else 0;
    var buf := read(page);
    if buf.None? || |buf.value| < hdr + 1 {
      DeadEnd(read, page, visited, leaves);
      return;
    }
    if buf.value[hdr] == INTERIOR_TABLE {
      var children := ExtractInteriorChildren(buf.value, hdr);
      assert page in Unseen(visited) && page !in Unseen(visited');
      visited', leaves' := CollectChildren(children, read, visited', leaves);
      ChildrenExplored(read, page, visited, Elements(ZeroBased(children)), visited', leaves, leaves');
      return;
    }
    DeadEnd(read, page, visited, leaves);
    if buf.value[hdr] == LEAF_TABLE {
      leaves' := leaves' + [page];
    }
  }

  /** The child loop of the recursion, src/btree_walker.rs:427-437; children are 1-based. */
  method CollectChildren(children: seq<nat>, read: Reader, visited: set<nat>, leaves: seq<nat>)
    returns (visited': set<nat>, leaves': seq<nat>)
    requires forall k :: 0 <= k < |children| ==> children[k] < TWO_32
    ensures Explored(read, Elements(ZeroBased(children)), visited, visited')
    ensures LeavesAdded(read, leaves, visited' - visited, leaves')
    decreases Unseen(visited), 1
  {
    visited', leaves' := visited, leaves;
    ghost var roots := {};
    NothingYet(read, visited, leaves);
    hide Explored, LeavesAdded;
    for i := 0 to |children|
      invariant Explored(read, roots, visited, visited')
      invariant LeavesAdded(read, leaves, visited' - visited, leaves')
      invariant forall r: nat :: r in roots <==> r + 1 in children[..i]
    {
      assert children[..i + 1] == children[..i] + [children[i]];
      if children[i] > 0 {
        var child := children[i] - 1;
        ghost var before, listed := visited', leaves';
        ExploredGrows(read, roots, visited, before);
        visited', leaves' := CollectLeafPagesInner(child, read, visited', leaves');
        ChildAdded(read, roots, visited, before, child, visited', leaves, listed, leaves');
        roots := roots + {child};
      }
    }
    assert children[..|children|] == children;
    forall p: nat
      ensures p in roots <==> p in Elements(ZeroBased(children))
    {
      ZeroBasedMembers(children, p);
    }
    assert roots == Elements(ZeroBased(children));
  }

  lemma NothingYet(read: Reader, visited: set<nat>, leaves: seq<nat>)
    ensures Explored(read, {}, visited, visited) && LeavesAdded(read, leaves, visited - visited, leaves)
  {
  }

  lemma ExploredGrows(read: Reader, roots: set<nat>, visited: set<nat>, after: set<nat>)
    requires Explored(read, roots, visited, after)
    ensures Unseen(after) <= Unseen(visited)
  {
  }

  /** One more child explored. */
  lemma ChildAdded(read: Reader, roots: set<nat>, visited: set<nat>, before: set<nat>, child: nat, after: set<nat>,
                   leaves: seq<nat>, listed: seq<nat>, leaves': seq<nat>)
    requires Explored(read, roots, visited, before) && Explored(read, {child}, before, after)
    requires LeavesAdded(read, leaves, before - visited, listed) && LeavesAdded(read, listed, after - before, leaves')
    ensures Explored(read, roots + {child}, visited, after) && LeavesAdded(read, leaves, after - visited, leaves')
  {
    ExploredAppend(read, roots, visited, before, {child}, after);
    assert visited <= before <= after;
    hide Explored, LeavesAdded;
    LeavesAppend(read, leaves, before - visited, listed, after - before, leaves');
    assert after - visited == (before - visited) + (after - before);
  }

  lemma ExploredAppend(read: Reader, a: set<nat>, visited: set<nat>, before: set<nat>, b: set<nat>, after: set<nat>)
    requires Explored(read, a, visited, before) && Explored(read, b, before, after)
    ensures Explored(read, a + b, visited, after)
  {
    forall p: nat | p in after && p !in visited
      ensures ReachedFrom(read, a + b, p)
    {
      assert ReachedFrom(read, if p in before then a else b, p);
    }
  }

  /** A page that is no interior page is explored at once; if it is a leaf, it is the only one. */
  lemma DeadEnd(read: Reader, page: nat, visited: set<nat>, leaves: seq<nat>)
    requires page !in visited && !HasType(read, page, INTERIOR_TABLE)
    ensures Explored(read, {page}, visited, visited + {page})
    ensures LeavesAdded(read, leaves, visited + {page} - visited,
                        if HasType(read, page, LEAF_TABLE) then leaves + [page] else leaves)
  {
    assert visited + {page} - visited == {page};
    DeadEndExplored(read, page, visited);
  }

  lemma DeadEndExplored(read: Reader, page: nat, visited: set<nat>)
    requires page !in visited && !HasType(read, page, INTERIOR_TABLE)
    ensures Explored(read, {page}, visited, visited + {page})
  {
    ReachSelf(TableGraph(read), page);
    hide Reach;
    assert TableGraph(read)(page) == {};
  }

  /** A page whose children have been explored is explored itself. */
  lemma ChildrenExplored(read: Reader, page: nat, visited: set<nat>, children: set<nat>, after: set<nat>,
                         leaves: seq<nat>, leaves': seq<nat>)
    requires page !in visited && HasType(read, page, INTERIOR_TABLE) && children == TableGraph(read)(page)
    requires Explored(read, children, visited + {page}, after)
    requires LeavesAdded(read, leaves, after - (visited + {page}), leaves')
    ensures Explored(read, {page}, visited, after)
    ensures LeavesAdded(read, leaves, after - visited, leaves')
  {
    ParentExplored(read, page, visited, children, after);
    ParentIsNoLeaf(read, page, visited, after, leaves, leaves');
  }

  lemma ParentExplored(read: Reader, page: nat, visited: set<nat>, children: set<nat>, after: set<nat>)
    requires page !in visited && children == TableGraph(read)(page) && Explored(read, children, visited + {page}, after)
    ensures Explored(read, {page}, visited, after)
  {
    var g := TableGraph(read);
    hide Reach, TableGraph;
    ReachSelf(g, page);
    forall p: nat | p in after && p !in visited
      ensures ReachedFrom(read, {page}, p)
    {
      if p != page {
        assert ReachedFrom(read, children, p);
        var c :| c in children && Reach(g, c, p);
        ReachFirst(g, page, c, p);
      }
    }
  }

  /** An interior page adds nothing to the leaves. */
  lemma ParentIsNoLeaf(read: Reader, page: nat, visited: set<nat>, after: set<nat>, leaves: seq<nat>, leaves': seq<nat>)
    requires page !in visited && HasType(read, page, INTERIOR_TABLE)
    requires LeavesAdded(read, leaves, after - (visited + {page}), leaves')
    ensures LeavesAdded(read, leaves, after - visited, leaves')
  {
    assert !HasType(read, page, LEAF_TABLE);
    hide HasType;
  }

  lemma LeavesAppend(read: Reader, a: seq<nat>, more: set<nat>, b: seq<nat>, more': set<nat>, c: seq<nat>)
    requires more !! more' && LeavesAdded(read, a, more, b) && LeavesAdded(read, b, more', c)
    ensures LeavesAdded(read, a, more + more', c)
  {
    var x, y := b[|a|..], c[|b|..];
    assert c[|a|..] == x + y;
    forall i, j | 0 <= i < |x| && 0 <= j < |y|
      ensures x[i] != y[j]
    {
      assert x[i] in x && y[j] in y;
    }
  }
}
