/**
 Manifests on which the code does less than one might hope. Two compactions go wrong because a group
 id keeps its override frames (src/tiered/bench.rs:657-690): one manifest no longer materializes, one
 shows other bytes. A third loses a page to the early stop of the copy loop (src/tiered/bench.rs:850-853).
 */
module ManifestWitnesses {
  import opened Common
  import opened StoreKeys
  import opened Tiered
  import opened Materialize
  import opened Compaction
  import opened CompactTree
  import opened CompactionTheorems
  import opened CompactionSteps
  import opened StaleOverrides
  import opened Graphs

  /** A codec that stores pages as they are. */
  const PLAIN := Codec(
    (g: nat, pages: seq<Page>) => Flat(pages),
    (g: nat, blob: Blob) => Some(blob),
    (g: nat, spf: nat, pages: seq<Page>) => (Flat(pages), [FrameEntry(0, |Flat(pages)|)]),
    (g: nat, blob: Blob, table: seq<FrameEntry>, n: nat, pageCount: nat) => Some(blob),
    (g: nat, f: nat, blob: Blob) => Some(blob))

  lemma PlainIsLawful(pageSize: nat)
    ensures Lawful(PLAIN, pageSize)
  {
  }

  /** Two groups of one tree, two one-byte pages to a frame, an override frame on group 0. */
  function TwoGroups(pageCount: nat, groups: seq<seq<nat>>): Manifest {
    Manifest(1, 0, pageCount, 1, 2, [Some(PageGroup(0, 1)), Some(PageGroup(1, 1))], map[], map[], [], 2,
             [map[0 := Override(0, 0, 1)]], false, groups, map[0 := TreeEntry("t", [0, 1])])
  }

  function Stored(first: Blob, second: Blob, frame: Blob): Objects {
    map[PageGroup(0, 1) := first, PageGroup(1, 1) := second, Override(0, 0, 1) := frame]
  }

  lemma TwoGroupsAreSane(pageCount: nat, first: seq<nat>, second: seq<nat>, a: Blob, b: Blob, frame: Blob)
    requires pageCount > 0 && Distinct(first + second) && |first| <= 2 && |first| <= |frame|
    ensures Sane(Stored(a, b, frame), TwoGroups(pageCount, [first, second]), PLAIN)
    ensures OwnGroups(TwoGroups(pageCount, [first, second]), [0, 1])
    ensures TreeIsKeyed(TwoGroups(pageCount, [first, second]), [0, 1])
  {
    var m, objects := TwoGroups(pageCount, [first, second]), Stored(a, b, frame);
    assert m.groupPages == [first, second];
    forall g: nat
      ensures GroupOk(objects, m, PLAIN, g)
    {
      if g == 0 {
        assert OverridesAt(m, g) == map[0 := Override(0, 0, 1)];
        assert FrameOk(objects, m, PLAIN, 0, 0);
      }
    }
    forall p: nat, g: nat, i: nat, h: nat, j: nat | Located(m, p, g, i) && Located(m, p, h, j)
      ensures g == h && i == j
    {
      var x, y := if g == 0 then i else |first| + i, if h == 0 then j else |first| + j;
      assert (first + second)[x] == p && (first + second)[y] == p;
    }
  }

  /** The pages packed when one group holds all that is live. */
  lemma PackedAre(m: Manifest, live: set<nat>, pages: seq<nat>)
    requires 0 in m.btrees && m.pagesPerGroup == 2 && TreeIds(m, 0) == [0, 1] && StrictlyAscending(pages)
    requires 0 < |pages| <= 2
    requires forall p: nat :: p in pages <==> p in live && (p in PagesAt(m, 0) || p in PagesAt(m, 1))
    ensures KeptOf(m, 0, live) == pages && NewGroups(m, 0, live) == [pages]
  {
    var ids := [0, 1];
    hide Kept, PagesAt;
    KeptPages(m, ids, live);
    forall p: nat
      ensures p in Kept(m, ids, live) <==> p in pages
    {
      if p in PagesAt(m, 0) {
        assert 0 in ids;
      }
      if p in PagesAt(m, 1) {
        assert 1 in ids;
      }
    }
    SameMembersSameList(Kept(m, ids, live), pages);
  }

  ghost function StoredCache(objects: Objects, m: Manifest, codec: Codec): Cache
    requires Materializable(objects, m, codec)
  {
    (p: nat) => Some(PageContent(objects, m, codec, p))
  }

  /** The manifest can be compacted from a cache that agrees with the store. */
  lemma TwoGroupsCompact(objects: Objects, m: Manifest, live: set<nat>, pages: seq<nat>, v: nat)
    returns (cache: Cache, r: TreeResult)
    requires Sane(objects, m, PLAIN) && m.pageSize == 1 && 0 in m.btrees && m.pagesPerGroup > 0
    requires TreeIds(m, 0) == [0, 1]
    requires OwnGroups(m, [0, 1]) && TreeIsKeyed(m, [0, 1])
    requires KeptOf(m, 0, live) == pages && forall i :: 0 <= i < |pages| ==> pages[i] < m.pageCount
    ensures CanCompact(objects, m, 0, live, cache, PLAIN) && TreeStep(m, 0, live, cache, PLAIN, v, r)
  {
    hide PageContent, Materializable, UniquePages, WellKeyed, Kept, TreeStep, PackedTree, OwnGroups, Lawful;
    cache := StoredCache(objects, m, PLAIN);
    r := PackedTree(m, 0, live, cache, PLAIN, v);
    PlainIsLawful(1);
    StepExists(m, 0, live, cache, PLAIN, v);
  }

  /**
   Pages 0 and 1 sit in a group each; group 0 has a one-page override frame. Both pages are packed
   into group 0, whose frame now needs two pages: the database cannot be materialized any more.
   */
  lemma ShortFrameStopsMaterializing() returns (objects: Objects, m: Manifest, cache: Cache, r: TreeResult)
    ensures CanCompact(objects, m, 0, {0, 1}, cache, PLAIN) && TreeStep(m, 0, {0, 1}, cache, PLAIN, 2, r)
    ensures !Materializable(After(objects, r), r.m, PLAIN)
  {
    hide TreeStep, CanCompact, KeptOf, NewGroups, Materializable, Sane, OwnGroups, TreeIsKeyed;
    m, objects := TwoGroups(2, [[0], [1]]), Stored([10], [11], [20]);
    TwoGroupsAreSane(2, [0], [1], [10], [11], [20]);
    PackedAre(m, {0, 1}, [0, 1]);
    cache, r := TwoGroupsCompact(objects, m, {0, 1}, [0, 1], 2);
    MaterializesIffOverridesFit(objects, m, 0, {0, 1}, cache, PLAIN, 2, r);
    assert NewId(m, 0, 0) == 0 && OverridesAt(m, 0) == map[0 := Override(0, 0, 1)];
    assert !FrameFits(objects, m, PLAIN, 0, 0, 2);
    assert !FramesFit(objects, m, PLAIN, 0, 2);
  }

  lemma FramePages()
    ensures SliceAt([20, 21], 0, 1) == Some([20]) && SliceAt([20, 21], 1, 1) == Some([21])
  {
    var frame: seq<Byte> := [20, 21];
    assert frame[0..1] == [20] && frame[1..2] == [21];
  }

  /** Page 1 shows the second page of the frame over group 0. */
  lemma PageOneBefore(objects: Objects, m: Manifest)
    requires m == TwoGroups(3, [[0, 1], [2]]) && objects == Stored([10, 11], [12], [20, 21]) && Sane(objects, m, PLAIN)
    ensures PageContent(objects, m, PLAIN, 1) == [21]
  {
    hide PageContent, UniquePages, Materializable;
    assert PagesAt(m, 0) == [0, 1] && OverridesAt(m, 0) == map[0 := Override(0, 0, 1)] && FrameIndex(m, 1) == 0;
    assert Located(m, 1, 0, 1);
    ContentAt(objects, m, PLAIN, 1, 0, 1);
    assert FrameWrites(m, PagesAt(m, 0), 0, 1);
    assert FrameBytes(objects, m, PLAIN, 0, 0) == Some([20, 21]);
    FramePages();
  }

  /**
   Pages 0 and 1 sit in group 0 under a two-page override frame, page 2 in group 1. Page 0 dies, so
   pages 1 and 2 are packed into group 0, and page 1 now shows what page 0 had.
   */
  lemma OldFrameChangesBytes() returns (objects: Objects, m: Manifest, cache: Cache, r: TreeResult)
    ensures CanCompact(objects, m, 0, {1, 2}, cache, PLAIN) && TreeStep(m, 0, {1, 2}, cache, PLAIN, 2, r)
    ensures Materializable(objects, m, PLAIN) && Materializable(After(objects, r), r.m, PLAIN)
    ensures PageContent(After(objects, r), r.m, PLAIN, 1) != PageContent(objects, m, PLAIN, 1)
  {
    hide TreeStep, CanCompact, KeptOf, NewGroups, Materializable, OwnGroups, TreeIsKeyed, PageContent, UniquePages,
         WellKeyed;
    m, objects := TwoGroups(3, [[0, 1], [2]]), Stored([10, 11], [12], [20, 21]);
    assert [0, 1] + [2] == [0, 1, 2];
    TwoGroupsAreSane(3, [0, 1], [2], [10, 11], [12], [20, 21]);
    PackedAre(m, {1, 2}, [1, 2]);
    cache, r := TwoGroupsCompact(objects, m, {1, 2}, [1, 2], 2);
    assert NewId(m, 0, 0) == 0 && OverridesAt(m, 0) == map[0 := Override(0, 0, 1)] && FrameIndex(m, 0) == 0;
    assert FrameBytes(objects, m, PLAIN, 0, 0) == Some([20, 21]);
    assert FramesFit(objects, m, PLAIN, 0, 2);
    MaterializesIffOverridesFit(objects, m, 0, {1, 2}, cache, PLAIN, 2, r);
    PageOneBefore(objects, m);
    FramePages();
    assert FramePage(objects, m, PLAIN, 0, 0) == Some([20]);
    PackedPageKeepsBytesIff(objects, m, 0, {1, 2}, cache, PLAIN, 2, r, 0, 0);
  }

  // ---------- the early stop ----------

  /** One group with the list the importer gives the schema page's group, in a database cut to ten pages. */
  function CutShort(): Manifest {
    Manifest(1, 0, 10, 1, 16, [Some(PageGroup(0, 1))], map[], map[], [], 0, [], false, [[17, 18, 0]],
             map[0 := TreeEntry("sqlite_master", [0])])
  }

  /** Page 0 is stored as 3 and is a page of the database, yet reads as zero: the loop stops at page 17. */
  lemma EarlyStopZeroesPage(objects: Objects)
    requires objects == map[PageGroup(0, 1) := [1, 2, 3]]
    ensures Materializable(objects, CutShort(), PLAIN) && UniquePages(CutShort()) && Located(CutShort(), 0, 0, 2)
    ensures BasePage(objects, CutShort(), PLAIN, 0, 2) == Some([3])
    ensures PageContent(objects, CutShort(), PLAIN, 0) == [0]
  {
    var m := CutShort();
    assert PagesAt(m, 0) == [17, 18, 0];
    forall g: nat
      ensures GroupOk(objects, m, PLAIN, g)
    {
      assert g > 0 ==> KeyAt(m, g).None?;
    }
    var bytes: seq<Byte> := [1, 2, 3];
    assert bytes[2..3] == [3];
    hide PageContent, PagesAt;
    assert PagesAt(m, 0)[0] >= m.pageCount;
    SimplePageMap(objects, m, PLAIN, 0, 0, 2);
  }
}
