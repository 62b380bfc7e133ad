/**
 Compacting one B-tree (src/tiered/compact.rs:138-200 and src/tiered/bench.rs:591-690): its live
 pages are packed densely into new groups that reuse the tree's group ids, then take fresh ones.
 */
module Compaction {
  import opened Common
  import opened Tiered
  import opened Graphs
  import opened Arithmetic

  /** The page cache; none when the page cannot be read. */
  type Cache = nat -> Option<Page>

  /** A walked tree: its root and the pages its walk found. */
  datatype Candidate = Candidate(root: nat, live: set<nat>)

  // ---------- which pages go where ----------

  /** The live pages of some groups, in group order, repeats included. */
  function Collect(m: Manifest, ids: seq<nat>, live: set<nat>): seq<nat> {
    if ids == [] then []
    else Collect(m, ids[..|ids| - 1], live) + Filter(PagesAt(m, ids[|ids| - 1]), live)
  }

  function Filter(pages: seq<nat>, live: set<nat>): (r: seq<nat>)
    ensures forall p: nat :: p in r <==> p in pages && p in live
  {
    if pages == [] then []
    else Filter(pages[..|pages| - 1], live) + if pages[|pages| - 1] in live then [pages[|pages| - 1]] else []
  }

  /** `dedup`: drops repeats of the previous element. */
  function Dedup(s: seq<nat>): (r: seq<nat>)
    ensures forall p: nat :: p in r <==> p in s
    ensures s != [] ==> r != [] && r[|r| - 1] == s[|s| - 1]
  {
    if |s| <= 1 then s
    else if s[|s| - 1] == s[|s| - 2] then Dedup(s[..|s| - 1])
    else Dedup(s[..|s| - 1]) + [s[|s| - 1]]
  }

  lemma {:induction false} DedupAscends(s: seq<nat>)
    requires Ascending(s)
    ensures StrictlyAscending(Dedup(s))
  {
    if |s| > 1 {
      var init := s[..|s| - 1];
      DedupAscends(init);
      assert Dedup(init)[|Dedup(init)| - 1] == s[|s| - 2];
    }
  }

  function Kept(m: Manifest, ids: seq<nat>, live: set<nat>): seq<nat> {
    Dedup(Sort(Collect(m, ids, live)))
  }

  /** `chunks(pages_per_group)` */
  function ChunkPages(pages: seq<nat>, n: nat): (r: seq<seq<nat>>)
    requires n > 0
  {
    if pages == [] then []
    else if |pages| <= n then [pages]
    else [pages[..n]] + ChunkPages(pages[n..], n)
  }

  lemma {:induction false} CollectMembers(m: Manifest, ids: seq<nat>, live: set<nat>, p: nat)
    ensures p in Collect(m, ids, live) <==> p in live && exists g <- ids :: p in PagesAt(m, g)
  {
    if ids != [] {
      var init, last := ids[..|ids| - 1], ids[|ids| - 1];
      CollectMembers(m, init, live, p);
      assert ids == init + [last];
    }
  }

  /** The kept pages are the tree's live pages, ascending and without repeats. */
  lemma KeptPages(m: Manifest, ids: seq<nat>, live: set<nat>)
    ensures StrictlyAscending(Kept(m, ids, live))
    ensures forall p: nat :: p in Kept(m, ids, live) <==> p in live && exists g <- ids :: p in PagesAt(m, g)
  {
    var all := Collect(m, ids, live);
    SortAscends(all);
    DedupAscends(Sort(all));
    forall p: nat
      ensures p in Kept(m, ids, live) <==> p in live && exists g <- ids :: p in PagesAt(m, g)
    {
      CollectMembers(m, ids, live, p);
    }
  }

  function SliceEnd(pages: seq<nat>, n: nat, a: nat): nat {
    if (a + 1) * n <= |pages| then (a + 1) * n else |pages|
  }

  /** Chunk `a` is the slice of the list from `a * n` on. */
  lemma {:induction false} ChunkIsSlice(pages: seq<nat>, n: nat, a: nat)
    requires n > 0 && a < |ChunkPages(pages, n)|
    ensures a * n < SliceEnd(pages, n, a) <= |pages|
    ensures ChunkPages(pages, n)[a] == pages[a * n..SliceEnd(pages, n, a)]
  {
    if a == 0 {
      assert 0 * n == 0 && 1 * n == n;
    } else {
      var tail := pages[n..];
      ChunkIsSlice(tail, n, a - 1);
      NextMultiple(a - 1, n);
      NextMultiple(a, n);
      var lo, hi := (a - 1) * n, SliceEnd(tail, n, a - 1);
      assert lo + n == a * n && hi + n == SliceEnd(pages, n, a);
      assert tail[lo..hi] == pages[lo + n..hi + n];
    }
  }

  lemma {:induction false} ChunkOfIndex(pages: seq<nat>, n: nat, x: nat)
    requires n > 0 && x < |pages|
    ensures x / n < |ChunkPages(pages, n)|
  {
    if |pages| > n && x >= n {
      ChunkOfIndex(pages[n..], n, x - n);
      QuotientStep(x, n);
    } else {
      FrameOf(x, n, 0);
    }
  }

  /** Chunks of an ascending list are ascending and non-empty, and take their pages from the list. */
  lemma {:induction false} ChunkAscends(pages: seq<nat>, n: nat, a: nat)
    requires n > 0 && StrictlyAscending(pages) && a < |ChunkPages(pages, n)|
    ensures var c := ChunkPages(pages, n)[a];
            c != [] && StrictlyAscending(c) && forall i :: 0 <= i < |c| ==> c[i] in pages
  {
    ChunkIsSlice(pages, n, a);
  }

  /** Where chunk `a` keeps its position `i`. */
  lemma {:induction false} ChunkIndex(pages: seq<nat>, n: nat, a: nat, i: nat)
    requires n > 0 && a < |ChunkPages(pages, n)| && i < |ChunkPages(pages, n)[a]|
    ensures i < n && a * n + i < |pages| && ChunkPages(pages, n)[a][i] == pages[a * n + i]
  {
    hide ChunkPages;
    ChunkIsSlice(pages, n, a);
    NextMultiple(a, n);
  }

  /** No page of the list lies in two places. */
  lemma {:induction false} ChunkPlaceIsUnique(pages: seq<nat>, n: nat, a: nat, i: nat, b: nat, j: nat)
    requires n > 0 && StrictlyAscending(pages)
    requires var r := ChunkPages(pages, n); a < |r| && b < |r| && i < |r[a]| && j < |r[b]| && r[a][i] == r[b][j]
    ensures a == b && i == j
  {
    hide ChunkPages;
    ChunkIndex(pages, n, a, i);
    ChunkIndex(pages, n, b, j);
    OnlyOnce(pages, a * n + i, b * n + j);
    QuotientIsUnique(n, a, i, b, j);
  }

  lemma OnlyOnce(pages: seq<nat>, x: nat, y: nat)
    requires StrictlyAscending(pages) && x < |pages| && y < |pages| && pages[x] == pages[y]
    ensures x == y
  {
  }

  /** Every page of the list lies in some chunk. */
  lemma ChunkCovers(pages: seq<nat>, n: nat, p: nat) returns (a: nat, i: nat)
    requires n > 0 && p in pages
    ensures a < |ChunkPages(pages, n)| && i < |ChunkPages(pages, n)[a]| && ChunkPages(pages, n)[a][i] == p
  {
    hide ChunkPages;
    var x :| 0 <= x < |pages| && pages[x] == p;
    a := x / n;
    FrameOf(x, n, a);
    i := x - a * n;
    ChunkOfIndex(pages, n, x);
    ChunkIsSlice(pages, n, a);
    NextMultiple(a, n);
  }

  /** The new groups of a tree. */
  function NewGroups(m: Manifest, root: nat, live: set<nat>): seq<seq<nat>>
    requires root in m.btrees && m.pagesPerGroup > 0
  {
    ChunkPages(Kept(m, m.btrees[root].groupIds, live), m.pagesPerGroup)
  }

  /** Index `x` of a list, cut into groups of `n`, holds page `p`. */
  predicate PackedAt(groups: seq<seq<nat>>, n: nat, x: nat, p: nat)
    requires n > 0
  {
    x / n < |groups| && x % n < |groups[x / n]| && groups[x / n][x % n] == p
  }

  /** Position `i` of group `a` holds page `p` of the list. */
  predicate TakenFrom(pages: seq<nat>, n: nat, a: nat, i: nat, p: nat) {
    i < n && a * n + i < |pages| && pages[a * n + i] == p
  }

  /**
   The new groups are packed densely: the live pages of the tree's groups, ascending and each
   once, fill groups of `pagesPerGroup` one after another, and there is nothing else in them.
   */
  lemma {:induction false} NewGroupsAreDense(m: Manifest, root: nat, live: set<nat>) returns (kept: seq<nat>)
    requires root in m.btrees && m.pagesPerGroup > 0
    ensures StrictlyAscending(kept)
    ensures forall p: nat :: p in kept <==> p in live && exists g <- m.btrees[root].groupIds :: p in PagesAt(m, g)
    ensures forall x: nat :: x < |kept| ==> PackedAt(NewGroups(m, root, live), m.pagesPerGroup, x, kept[x])
    ensures var groups := NewGroups(m, root, live);
            forall a: nat, i: nat :: a < |groups| && i < |groups[a]| ==>
              TakenFrom(kept, m.pagesPerGroup, a, i, groups[a][i])
  {
    hide Kept, ChunkPages, PagesAt, StrictlyAscending, PackedAt;
    var n := m.pagesPerGroup;
    kept := Kept(m, m.btrees[root].groupIds, live);
    KeptPages(m, m.btrees[root].groupIds, live);
    var groups := NewGroups(m, root, live);
    forall x: nat | x < |kept|
      ensures PackedAt(groups, n, x, kept[x])
    {
      IndexIsPacked(kept, n, x);
    }
    forall a: nat, i: nat | a < |groups| && i < |groups[a]|
      ensures TakenFrom(kept, n, a, i, groups[a][i])
    {
      ChunkIndex(kept, n, a, i);
    }
  }

  lemma {:induction false} IndexIsPacked(pages: seq<nat>, n: nat, x: nat)
    requires n > 0 && x < |pages|
    ensures PackedAt(ChunkPages(pages, n), n, x, pages[x])
  {
    hide ChunkPages;
    var a, i := x / n, x % n;
    QuotientAndRemainder(x, n, a, i);
    ChunkOfIndex(pages, n, x);
    ChunkIsSlice(pages, n, a);
    NextMultiple(a, n);
  }

  /** `compact_btree`, src/tiered/compact.rs:138-200; `live` holds the walked pages of each root. */
  method CompactBtree(m: Manifest, root: nat, live: map<nat, set<nat>>) returns (r: Option<seq<seq<nat>>>)
    requires m.pagesPerGroup > 0
    ensures r.Some? <==> root in live && root in m.btrees
    ensures r.Some? ==> r.value == NewGroups(m, root, live[root])
  {
    if root !in live || root !in m.btrees {
      return None;
    }
    hide Filter, Dedup, Sort, ChunkPages, PagesAt;
    var ids := m.btrees[root].groupIds;
    var sortedLive := [];
    for i := 0 to |ids|
      invariant sortedLive == Collect(m, ids[..i], live[root])
    {
      assert ids[..i + 1][..i] == ids[..i];
      sortedLive := PushLive(PagesAt(m, ids[i]), live[root], sortedLive);
    }
    assert ids[..|ids|] == ids;
    sortedLive := Dedup(Sort(sortedLive));
    r := Some(ChunkPages(sortedLive, m.pagesPerGroup));
  }

  /** The page loop of one group, src/tiered/compact.rs:174-178. */
  method PushLive(pages: seq<nat>, live: set<nat>, before: seq<nat>) returns (sortedLive: seq<nat>)
    ensures sortedLive == before + Filter(pages, live)
  {
    sortedLive := before;
    for j := 0 to |pages|
      invariant sortedLive == before + Filter(pages[..j], live)
    {
      assert pages[..j + 1][..j] == pages[..j];
      if pages[j] in live {
        sortedLive := sortedLive + [pages[j]];
      }
    }
    assert pages[..|pages|] == pages;
  }
}
