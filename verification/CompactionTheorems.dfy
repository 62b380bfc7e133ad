/** What compacting a tree keeps: which pages stay listed, and with which bytes. */
module CompactionTheorems {
  import opened Common
  import opened StoreKeys
  import opened Tiered
  import opened Materialize
  import opened Compaction
  import opened CompactTree
  import opened Graphs
  import opened Arithmetic

  /** The objects after the uploads. */
  function UploadMap(uploads: seq<Upload>): Objects {
    if uploads == [] then map[]
    else UploadMap(uploads[..|uploads| - 1])[uploads[|uploads| - 1].key := uploads[|uploads| - 1].blob]
  }

  lemma {:induction false} UploadMapAt(uploads: seq<Upload>)
    requires forall i, j :: 0 <= i < j < |uploads| ==> uploads[i].key != uploads[j].key
    ensures forall i :: 0 <= i < |uploads| ==>
              uploads[i].key in UploadMap(uploads) && UploadMap(uploads)[uploads[i].key] == uploads[i].blob
    ensures forall k <- UploadMap(uploads).Keys :: exists i :: 0 <= i < |uploads| && uploads[i].key == k
  {
    if uploads != [] {
      UploadMapAt(uploads[..|uploads| - 1]);
    }
  }

  // ---------- packed pages read back ----------

  lemma {:induction false} FlatSlice(pages: seq<Page>, size: nat, j: nat)
    requires FullPages(pages, size) && j < |pages|
    ensures |Flat(pages)| == |pages| * size
    ensures SliceAt(Flat(pages), j, size) == Some(pages[j])
  {
    var init, last := pages[..|pages| - 1], pages[|pages| - 1];
    FlatLength(init, size);
    FlatLength(pages, size);
    NextMultiple(j, size);
    if j < |pages| - 1 {
      FlatSlice(init, size, j);
      MulMonotone(j + 1, |init|, size);
      assert Flat(pages)[j * size..(j + 1) * size] == Flat(init)[j * size..(j + 1) * size];
    } else {
      assert Flat(pages)[j * size..(j + 1) * size] == last;
    }
  }

  lemma {:induction false} FlatLength(pages: seq<Page>, size: nat)
    requires FullPages(pages, size)
    ensures |Flat(pages)| == |pages| * size
  {
    if pages != [] {
      FlatLength(pages[..|pages| - 1], size);
      NextMultiple(|pages| - 1, size);
    }
  }

  /** An ascending list of numbers below `n` has at most `n` of them. */
  lemma AscendingIsShort(pages: seq<nat>, n: nat)
    requires StrictlyAscending(pages) && forall i :: 0 <= i < |pages| ==> pages[i] < n
    ensures |pages| <= n
  {
    for i := 0 to |pages|
      invariant i > 0 ==> pages[i - 1] >= i - 1
    {
      assert i > 0 ==> pages[i - 1] < pages[i];
    }
  }

  // ---------- hypotheses ----------

  /** Group keys name their own group; override keys are override keys. */
  ghost predicate WellKeyed(m: Manifest) {
    && (forall g: nat :: KeyAt(m, g).Some? ==> KeyAt(m, g).value.PageGroup? && KeyAt(m, g).value.gid == g)
    && (forall k <- m.interiorChunkKeys.Values :: k.InteriorChunk?)
    && (forall k <- m.indexChunkKeys.Values :: k.IndexChunk?)
    && (forall g: nat :: g < |m.subframeOverrides| ==> forall k <- m.subframeOverrides[g].Values :: k.Override?)
  }

  /** The pages kept for a tree are in range, and the cache holds what the store says about them. */
  ghost predicate CacheAgrees(objects: Objects, m: Manifest, codec: Codec, cache: Cache, pages: seq<nat>)
    requires Materializable(objects, m, codec)
  {
    forall i :: 0 <= i < |pages| ==>
      pages[i] < m.pageCount && cache(pages[i]) == Some(PageContent(objects, m, codec, pages[i]))
  }

  ghost predicate TreeIsKeyed(m: Manifest, ids: seq<nat>) {
    forall i :: 0 <= i < |ids| ==> KeyAt(m, ids[i]).Some?
  }

  // ---------- one new group ----------

  lemma ContentIsFull(objects: Objects, m: Manifest, codec: Codec, p: nat)
    requires Materializable(objects, m, codec)
    ensures |PageContent(objects, m, codec, p)| == m.pageSize
  {
  }

  /** Group `g` of `m'` was packed from the cache: ascending in-range pages, object uploaded, table recorded. */
  ghost predicate IsNewGroup(m: Manifest, cache: Cache, codec: Codec, v: nat, m': Manifest, objects': Objects, g: nat,
                             pages: seq<nat>) {
    && SameFrame(m, m') && StrictlyAscending(pages)
    && (forall i :: 0 <= i < |pages| ==>
          pages[i] < m.pageCount && cache(pages[i]).Some? && |cache(pages[i]).value| == m.pageSize)
    && KeyAt(m', g) == Some(PageGroup(g, v)) && PagesAt(m', g) == pages
    && (m.subPagesPerFrame > 0 ==> TableAt(m', g) == GroupTable(m, cache, codec, g, pages))
    && ObjectAt(objects', PageGroup(g, v)) == Some(GroupBlob(m, cache, codec, g, pages))
  }

  /** A new group decodes to the cached pages. */
  lemma NewGroupBase(m: Manifest, cache: Cache, codec: Codec, v: nat, m': Manifest, objects': Objects, g: nat,
                     pages: seq<nat>)
    requires Lawful(codec, m.pageSize) && IsNewGroup(m, cache, codec, v, m', objects', g, pages) && pages != []
    ensures BaseBytes(objects', m', codec, g) == Some(Flat(Images(cache, pages, m.pageSize)))
  {
    hide Flat, PagesAt, KeyAt, TableAt;
    assert FullPages(Images(cache, pages, m.pageSize), m.pageSize);
    AscendingIsShort(pages, m.pageCount);
  }

  lemma NewGroupBaseWrite(m: Manifest, cache: Cache, codec: Codec, v: nat, m': Manifest, objects': Objects, g: nat,
                          pages: seq<nat>, j: nat)
    requires IsNewGroup(m, cache, codec, v, m', objects', g, pages) && j < |pages|
    ensures BaseWrite(m', pages, Flat(Images(cache, pages, m.pageSize)), j) == cache(pages[j])
  {
    hide Flat, PagesAt, KeyAt, TableAt, SliceAt, GroupBlob, GroupTable;
    FlatSlice(Images(cache, pages, m.pageSize), m.pageSize, j);
    assert Reached(pages, 0, j, m'.pageCount);
  }

  /** A position no override covers is written from the base. */
  lemma SlotUncovered(objects: Objects, m: Manifest, codec: Codec, g: nat, j: nat)
    requires GroupOk(objects, m, codec, g) && KeyAt(m, g).Some? && j < |PagesAt(m, g)|
    requires FrameIndex(m, j) !in OverridesAt(m, g)
    ensures SlotWrite(objects, m, codec, g, j) == BaseWrite(m, PagesAt(m, g), BaseBytes(objects, m, codec, g).value, j)
  {
  }

  /** A position in reach that an override covers is written from the override. */
  lemma SlotCovered(objects: Objects, m: Manifest, codec: Codec, g: nat, j: nat)
    requires GroupOk(objects, m, codec, g) && KeyAt(m, g).Some? && j < |PagesAt(m, g)|
    requires FrameIndex(m, j) in OverridesAt(m, g) && forall i :: 0 <= i <= j ==> PagesAt(m, g)[i] < m.pageCount
    ensures SlotWrite(objects, m, codec, g, j) == FramePage(objects, m, codec, g, j)
  {
    hide PagesAt, BaseWrite, FrameStart, FrameIndex, SliceAt, FrameBytes;
    InFrame(m, j);
    assert FrameOk(objects, m, codec, g, FrameIndex(m, j));
    assert FrameWrites(m, PagesAt(m, g), FrameIndex(m, j), j);
  }

  /**
   A new group's page is what the cache held, unless an override frame left from before still
   covers its position: then it is that frame's page, whatever page now sits there.
   */
  lemma NewGroupPage(m: Manifest, cache: Cache, codec: Codec, v: nat, m': Manifest, objects': Objects, g: nat,
                     pages: seq<nat>, j: nat)
    requires Lawful(codec, m.pageSize) && IsNewGroup(m, cache, codec, v, m', objects', g, pages) && j < |pages|
    requires GroupOk(objects', m', codec, g)
    ensures FrameIndex(m', j) !in OverridesAt(m', g) ==> SlotWrite(objects', m', codec, g, j) == cache(pages[j])
    ensures FrameIndex(m', j) in OverridesAt(m', g) ==>
              SlotWrite(objects', m', codec, g, j) == FramePage(objects', m', codec, g, j)
  {
    hide Lawful, GroupOk, SlotWrite, BaseWrite, FrameIndex, FrameStart, GroupBlob, GroupTable, Flat, SliceAt, FramePage;
    if FrameIndex(m', j) in OverridesAt(m', g) {
      SlotCovered(objects', m', codec, g, j);
    } else {
      SlotUncovered(objects', m', codec, g, j);
      NewGroupBase(m, cache, codec, v, m', objects', g, pages);
      NewGroupBaseWrite(m, cache, codec, v, m', objects', g, pages, j);
    }
  }

  // ---------- one tree ----------

  /** Compacting tree `root`, with `live` its walked pages, gave `r`. */
  ghost predicate TreeStep(m: Manifest, root: nat, live: set<nat>, cache: Cache, codec: Codec, v: nat, r: TreeResult) {
    && root in m.btrees && m.pagesPerGroup > 0
    && OwnGroups(m, m.btrees[root].groupIds)
    && TreeCompacted(m, root, NewGroups(m, root, live), cache, codec, v, r)
  }

  ghost function TreeIds(m: Manifest, root: nat): seq<nat>
    requires root in m.btrees
  {
    m.btrees[root].groupIds
  }

  ghost function KeptOf(m: Manifest, root: nat, live: set<nat>): seq<nat>
    requires root in m.btrees
  {
    Kept(m, TreeIds(m, root), live)
  }

  /** Everything materializes, pages sit in one place, keys name their groups. */
  ghost predicate Sane(objects: Objects, m: Manifest, codec: Codec) {
    Materializable(objects, m, codec) && UniquePages(m) && WellKeyed(m) && !m.positional
  }

  /** A page after the step sits in a new group, or where it was, in a group of another tree. */
  lemma LocatedAfter(m: Manifest, root: nat, live: set<nat>, cache: Cache, codec: Codec, v: nat, r: TreeResult,
                     p: nat, g: nat, i: nat)
    returns (a: nat)
    requires TreeStep(m, root, live, cache, codec, v, r) && Located(r.m, p, g, i)
    ensures g in r.ids ==> a < |r.ids| && r.ids[a] == g && p in KeptOf(m, root, live)
    ensures g in r.ids ==> |r.ids| == |NewGroups(m, root, live)| && PagesAt(r.m, g) == NewGroups(m, root, live)[a]
    ensures g !in r.ids ==> g !in TreeIds(m, root) && Located(m, p, g, i)
  {
    hide PagesAt, KeyAt, TableAt, Kept, ChunkPages, OwnGroups;
    a := 0;
    if g in r.ids {
      a :| 0 <= a < |r.ids| && r.ids[a] == g;
      KeptPages(m, TreeIds(m, root), live);
      ChunkAscends(KeptOf(m, root, live), m.pagesPerGroup, a);
    }
  }

  /** Every group that lists pages has an object. */
  ghost predicate PagesAreKeyed(m: Manifest) {
    forall g: nat :: PagesAt(m, g) != [] ==> KeyAt(m, g).Some?
  }

  /** A kept page had a place in one of the tree's groups. */
  lemma KeptWasLocated(m: Manifest, root: nat, live: set<nat>, p: nat) returns (g: nat, i: nat)
    requires root in m.btrees && p in KeptOf(m, root, live)
    requires TreeIsKeyed(m, TreeIds(m, root)) || PagesAreKeyed(m)
    ensures g in TreeIds(m, root) && Located(m, p, g, i) && p in live
  {
    hide PagesAt, KeyAt;
    var ids := TreeIds(m, root);
    KeptPages(m, ids, live);
    g :| g in ids && p in PagesAt(m, g);
    i :| 0 <= i < |PagesAt(m, g)| && PagesAt(m, g)[i] == p;
    var x :| 0 <= x < |ids| && ids[x] == g;
  }

  lemma UniqueAfter(m: Manifest, root: nat, live: set<nat>, cache: Cache, codec: Codec, v: nat, r: TreeResult, p: nat,
                    g: nat, i: nat, h: nat, j: nat)
    requires TreeStep(m, root, live, cache, codec, v, r) && UniquePages(m)
    requires TreeIsKeyed(m, TreeIds(m, root)) || PagesAreKeyed(m)
    requires Located(r.m, p, g, i) && Located(r.m, p, h, j)
    ensures g == h && i == j
  {
    hide PagesAt, KeyAt, TableAt, Kept, ChunkPages, OwnGroups;
    var a := LocatedAfter(m, root, live, cache, codec, v, r, p, g, i);
    var b := LocatedAfter(m, root, live, cache, codec, v, r, p, h, j);
    if g in r.ids && h in r.ids {
      KeptPages(m, TreeIds(m, root), live);
      ChunkPlaceIsUnique(KeptOf(m, root, live), m.pagesPerGroup, a, i, b, j);
    } else if g in r.ids || h in r.ids {
      var x, y := KeptWasLocated(m, root, live, p);
    }
  }

  /** Exactly the tree's live pages and the pages of groups it does not own stay listed. */
  lemma ListedAfter(m: Manifest, root: nat, live: set<nat>, cache: Cache, codec: Codec, v: nat, r: TreeResult, p: nat)
    requires TreeStep(m, root, live, cache, codec, v, r)
    ensures Listed(r.m, p) <==>
            p in KeptOf(m, root, live) || exists g: nat, i: nat :: g !in TreeIds(m, root) && Located(m, p, g, i)
  {
    hide Kept, ChunkPages;
    if Listed(r.m, p) {
      var g: nat, i: nat :| Located(r.m, p, g, i);
      var a := LocatedAfter(m, root, live, cache, codec, v, r, p, g, i);
    }
    if p in KeptOf(m, root, live) {
      var a, i := ChunkCovers(KeptOf(m, root, live), m.pagesPerGroup, p);
      assert r.ids[a] in r.ids;
      assert Located(r.m, p, r.ids[a], i);
    }
    if g: nat, i: nat :| g !in TreeIds(m, root) && Located(m, p, g, i) {
      StillLocated(m, root, live, cache, codec, v, r, p, g, i);
    }
  }

  lemma StillLocated(m: Manifest, root: nat, live: set<nat>, cache: Cache, codec: Codec, v: nat, r: TreeResult,
                     p: nat, g: nat, i: nat)
    requires TreeStep(m, root, live, cache, codec, v, r) && Located(m, p, g, i) && g !in TreeIds(m, root)
    ensures Located(r.m, p, g, i) && g !in r.ids
  {
    hide Kept, ChunkPages;
  }

  // ---------- bytes ----------

  /** A group that kept its key, pages, table and objects contributes what it did. */
  lemma UntouchedGroup(objects: Objects, m: Manifest, objects': Objects, m': Manifest, codec: Codec, g: nat)
    requires SameFrame(m, m') && KeyAt(m', g) == KeyAt(m, g) && PagesAt(m', g) == PagesAt(m, g)
    requires TableAt(m', g) == TableAt(m, g)
    requires KeyAt(m, g).Some? ==> ObjectAt(objects', KeyAt(m, g).value) == ObjectAt(objects, KeyAt(m, g).value)
    requires forall f <- OverridesAt(m, g).Keys ::
               ObjectAt(objects', OverridesAt(m, g)[f]) == ObjectAt(objects, OverridesAt(m, g)[f])
    requires GroupOk(objects, m, codec, g)
    ensures GroupOk(objects', m', codec, g)
    ensures KeyAt(m, g).Some? ==> forall i :: 0 <= i < |PagesAt(m, g)| ==>
              SlotWrite(objects', m', codec, g, i) == SlotWrite(objects, m, codec, g, i)
  {
    hide PagesAt, KeyAt, TableAt, ObjectAt, GroupOk, SlotWrite;
    SameContribution(objects, m, objects', m', codec, g);
  }

  ghost function After(objects: Objects, r: TreeResult): Objects { objects + UploadMap(r.uploads) }

  lemma StepUploads(m: Manifest, root: nat, live: set<nat>, cache: Cache, codec: Codec, v: nat, r: TreeResult)
    requires TreeStep(m, root, live, cache, codec, v, r)
    ensures root in m.btrees && m.pagesPerGroup > 0 && Distinct(r.ids) && |r.ids| == |NewGroups(m, root, live)|
    ensures UploadsFor(m, cache, codec, v, r.ids, NewGroups(m, root, live), r.uploads)
  {
    hide NewGroups, KeyAt, PagesAt, TableAt, OwnGroups, IdsByRule, UploadsFor, SameFrame;
  }

  lemma UploadsStored(objects: Objects, m: Manifest, groups: seq<seq<nat>>, cache: Cache, codec: Codec, v: nat,
                      ids: seq<nat>, uploads: seq<Upload>)
    requires Distinct(ids) && |ids| == |groups| && UploadsFor(m, cache, codec, v, ids, groups, uploads)
    ensures forall a :: 0 <= a < |ids| ==>
              ObjectAt(objects + UploadMap(uploads), PageGroup(ids[a], v)) ==
              Some(GroupBlob(m, cache, codec, ids[a], groups[a]))
    ensures forall k: Key :: !(k.PageGroup? && k.gid in ids && k.version == v) ==>
              ObjectAt(objects + UploadMap(uploads), k) == ObjectAt(objects, k)
  {
    hide GroupBlob, UploadMap;
    UploadMapAt(uploads);
    forall a | 0 <= a < |ids|
      ensures PageGroup(ids[a], v) in UploadMap(uploads)
      ensures UploadMap(uploads)[PageGroup(ids[a], v)] == GroupBlob(m, cache, codec, ids[a], groups[a])
    {
      assert uploads[a].key in UploadMap(uploads);
    }
    forall k: Key | !(k.PageGroup? && k.gid in ids && k.version == v)
      ensures k !in UploadMap(uploads)
    {
    }
  }

  /** The uploads are one new object per new group. */
  lemma UploadedObjects(objects: Objects, m: Manifest, root: nat, live: set<nat>, cache: Cache, codec: Codec, v: nat,
                        r: TreeResult)
    requires TreeStep(m, root, live, cache, codec, v, r)
    ensures forall a :: 0 <= a < |r.ids| ==>
              ObjectAt(After(objects, r), PageGroup(r.ids[a], v)) ==
              Some(GroupBlob(m, cache, codec, r.ids[a], NewGroups(m, root, live)[a]))
    ensures forall k: Key :: !(k.PageGroup? && k.gid in r.ids && k.version == v) ==>
              ObjectAt(After(objects, r), k) == ObjectAt(objects, k)
  {
    hide TreeStep, NewGroups, GroupBlob, UploadMap, UploadsFor, ObjectAt;
    StepUploads(m, root, live, cache, codec, v, r);
    UploadsStored(objects, m, NewGroups(m, root, live), cache, codec, v, r.ids, r.uploads);
  }

  lemma UntouchedAfter(objects: Objects, m: Manifest, root: nat, live: set<nat>, cache: Cache, codec: Codec, v: nat,
                       r: TreeResult, g: nat)
    requires TreeStep(m, root, live, cache, codec, v, r) && WellKeyed(m) && GroupOk(objects, m, codec, g)
    requires g !in r.ids && g !in TreeIds(m, root)
    ensures GroupOk(After(objects, r), r.m, codec, g)
    ensures KeyAt(m, g).Some? ==> forall i :: 0 <= i < |PagesAt(m, g)| ==>
              SlotWrite(After(objects, r), r.m, codec, g, i) == SlotWrite(objects, m, codec, g, i)
  {
    hide NewGroups, GroupBlob, PagesAt, TableAt, OwnGroups, After, ObjectAt, GroupOk, SlotWrite;
    UploadedObjects(objects, m, root, live, cache, codec, v, r);
    forall f <- OverridesAt(m, g).Keys
      ensures ObjectAt(After(objects, r), OverridesAt(m, g)[f]) == ObjectAt(objects, OverridesAt(m, g)[f])
    {
      assert OverridesAt(m, g)[f] in m.subframeOverrides[g].Values;
    }
    UntouchedGroup(objects, m, After(objects, r), r.m, codec, g);
  }

  lemma NewAfter(objects: Objects, m: Manifest, root: nat, live: set<nat>, cache: Cache, codec: Codec, v: nat,
                 r: TreeResult, a: nat)
    requires TreeStep(m, root, live, cache, codec, v, r) && Materializable(objects, m, codec) && a < |r.ids|
    requires CacheAgrees(objects, m, codec, cache, KeptOf(m, root, live))
    ensures NewGroups(m, root, live)[a] != []
    ensures IsNewGroup(m, cache, codec, v, r.m, After(objects, r), r.ids[a], NewGroups(m, root, live)[a])
  {
    hide GroupBlob, GroupTable, PagesAt, TableAt, OwnGroups, After, ObjectAt, Kept, ChunkPages, Materializable,
         PageContent;
    UploadedObjects(objects, m, root, live, cache, codec, v, r);
    KeptPages(m, TreeIds(m, root), live);
    ChunkAscends(KeptOf(m, root, live), m.pagesPerGroup, a);
    var pages := NewGroups(m, root, live)[a];
    forall i | 0 <= i < |pages|
      ensures pages[i] < m.pageCount && cache(pages[i]).Some? && |cache(pages[i]).value| == m.pageSize
    {
      assert pages[i] in KeptOf(m, root, live);
      var x :| 0 <= x < |KeptOf(m, root, live)| && KeptOf(m, root, live)[x] == pages[i];
      ContentIsFull(objects, m, codec, pages[i]);
    }
    assert r.ids[a] in r.ids;
  }
}
