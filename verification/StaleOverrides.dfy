/**
 What compacting a tree does to meaning. The packed groups keep whatever override frames their ids
 had before (src/tiered/bench.rs:657-690), and a materialization lays those frames over the new
 pages (src/tiered/bench.rs:863-923). Whether the result still materializes, and which pages keep
 their bytes, is said here in terms of the manifest, objects and live pages before the call.
 */
module StaleOverrides {
  import opened Common
  import opened Tiered
  import opened Materialize
  import opened Compaction
  import opened CompactTree
  import opened CompactionTheorems
  import opened Graphs

  // ---------- the conditions, before the call ----------

  /** The id new group `a` of the tree will have. */
  ghost function NewId(m: Manifest, root: nat, a: nat): nat
    requires root in m.btrees
  {
    IdAt(|m.groupPages|, TreeIds(m, root), a)
  }

  /** Frame `f` of group `g` is there, decodes, and is long enough for a group of `n` pages. */
  ghost predicate FrameFits(objects: Objects, m: Manifest, codec: Codec, g: nat, f: nat, n: nat)
    requires f in OverridesAt(m, g)
  {
    var bytes, start := FrameBytes(objects, m, codec, g, f), FrameStart(m, f);
    var end := if start + m.subPagesPerFrame <= n then start + m.subPagesPerFrame else n;
    bytes.Some? && (start < end ==> (end - start) * m.pageSize <= |bytes.value|)
  }

  ghost predicate FramesFit(objects: Objects, m: Manifest, codec: Codec, g: nat, n: nat) {
    forall f <- OverridesAt(m, g).Keys :: FrameFits(objects, m, codec, g, f, n)
  }

  /** Every old frame on an id the tree will use is long enough for the pages packed under it. */
  ghost predicate OverridesFit(objects: Objects, m: Manifest, root: nat, live: set<nat>, codec: Codec)
    requires root in m.btrees && m.pagesPerGroup > 0
  {
    forall a :: 0 <= a < |NewGroups(m, root, live)| ==>
      FramesFit(objects, m, codec, NewId(m, root, a), |NewGroups(m, root, live)[a]|)
  }

  /** No old frame covers position `j` of group `g`, or it holds these very bytes there. */
  ghost predicate SlotHarmless(objects: Objects, m: Manifest, codec: Codec, g: nat, j: nat, content: Page) {
    FrameIndex(m, j) in OverridesAt(m, g) ==> FramePage(objects, m, codec, g, j) == Some(content)
  }

  /** Every page to be packed lands where no old frame shows, or shows its own bytes. */
  ghost predicate OverridesAgree(objects: Objects, m: Manifest, root: nat, live: set<nat>, codec: Codec)
    requires root in m.btrees && m.pagesPerGroup > 0 && Materializable(objects, m, codec)
  {
    forall a, j :: 0 <= a < |NewGroups(m, root, live)| && 0 <= j < |NewGroups(m, root, live)[a]| ==>
      SlotHarmless(objects, m, codec, NewId(m, root, a), j, PageContent(objects, m, codec,
        NewGroups(m, root, live)[a][j]))
  }

  ghost predicate OverridesHarmless(objects: Objects, m: Manifest, root: nat, live: set<nat>, codec: Codec)
    requires root in m.btrees && m.pagesPerGroup > 0 && Materializable(objects, m, codec)
  {
    OverridesFit(objects, m, root, live, codec) && OverridesAgree(objects, m, root, live, codec)
  }

  /** It is enough that the ids the tree will use carry no frames. */
  lemma NoOverridesAreHarmless(objects: Objects, m: Manifest, root: nat, live: set<nat>, codec: Codec)
    requires root in m.btrees && m.pagesPerGroup > 0 && Materializable(objects, m, codec)
    requires forall a :: 0 <= a < |NewGroups(m, root, live)| ==> OverridesAt(m, NewId(m, root, a)) == map[]
    ensures OverridesHarmless(objects, m, root, live, codec)
  {
    hide NewGroups, NewId, OverridesAt, PageContent, Materializable;
  }

  /** What a compaction may be asked of: a sane manifest, a lawful codec, a cache that agrees with the store. */
  ghost predicate CanCompact(objects: Objects, m: Manifest, root: nat, live: set<nat>, cache: Cache, codec: Codec) {
    && Sane(objects, m, codec) && Lawful(codec, m.pageSize)
    && root in m.btrees && TreeIsKeyed(m, TreeIds(m, root))
    && CacheAgrees(objects, m, codec, cache, KeptOf(m, root, live))
  }

  // ---------- old frames on new groups ----------

  /** New group `a` stands under its foreseen id, with the frames that id had. */
  lemma NewIdIs(objects: Objects, m: Manifest, root: nat, live: set<nat>, cache: Cache, codec: Codec, v: nat,
                r: TreeResult, a: nat)
    requires TreeStep(m, root, live, cache, codec, v, r) && WellKeyed(m) && a < |NewGroups(m, root, live)|
    ensures |r.ids| == |NewGroups(m, root, live)| && r.ids[a] == NewId(m, root, a)
    ensures PagesAt(r.m, r.ids[a]) == NewGroups(m, root, live)[a]
    ensures SameOverrides(objects, m, After(objects, r), r.m, codec, r.ids[a])
  {
    hide NewGroups, GroupBlob, GroupTable, PagesAt, TableAt, KeyAt, OwnGroups, After, ObjectAt;
    UploadedObjects(objects, m, root, live, cache, codec, v, r);
    var g := r.ids[a];
    forall f <- OverridesAt(m, g).Keys
      ensures FrameBytes(After(objects, r), r.m, codec, g, f) == FrameBytes(objects, m, codec, g, f)
    {
      assert OverridesAt(m, g)[f] in m.subframeOverrides[g].Values;
    }
  }

  /** Group `g` of `m'` has the frames it had in `m`, with the same bytes. */
  ghost predicate SameOverrides(objects: Objects, m: Manifest, objects': Objects, m': Manifest, codec: Codec, g: nat) {
    && SameFrame(m, m') && OverridesAt(m', g) == OverridesAt(m, g)
    && forall f <- OverridesAt(m, g).Keys ::
         FrameBytes(objects', m', codec, g, f) == FrameBytes(objects, m, codec, g, f)
  }

  lemma GroupOkIffFramesFit(objects: Objects, m: Manifest, objects': Objects, m': Manifest, codec: Codec, g: nat)
    requires SameOverrides(objects, m, objects', m', codec, g) && KeyAt(m', g).Some?
    requires BaseBytes(objects', m', codec, g).Some?
    ensures GroupOk(objects', m', codec, g) <==> FramesFit(objects, m, codec, g, |PagesAt(m', g)|)
  {
    hide PagesAt, BaseBytes, FrameBytes, OverridesAt, KeyAt;
    forall f <- OverridesAt(m, g).Keys
      ensures FrameOk(objects', m', codec, g, f) <==> FrameFits(objects, m, codec, g, f, |PagesAt(m', g)|)
    {
    }
  }

  lemma NewGroupOkIff(objects: Objects, m: Manifest, root: nat, live: set<nat>, cache: Cache, codec: Codec, v: nat,
                      r: TreeResult, a: nat)
    requires TreeStep(m, root, live, cache, codec, v, r) && CanCompact(objects, m, root, live, cache, codec)
    requires a < |NewGroups(m, root, live)| && |r.ids| == |NewGroups(m, root, live)|
    ensures GroupOk(After(objects, r), r.m, codec, r.ids[a]) <==>
            FramesFit(objects, m, codec, NewId(m, root, a), |NewGroups(m, root, live)[a]|)
  {
    CanParts(objects, m, root, live, cache, codec);
    hide TreeStep, NewGroups, PagesAt, TableAt, OwnGroups, After, ObjectAt, Lawful, BaseBytes, FrameBytes, CanCompact,
         Flat, OverridesAt, NewId,
         FramesFit, GroupOk, Materializable, UniquePages, WellKeyed, CacheAgrees, GroupTable, GroupBlob, KeyAt,
           StrictlyAscending;
    NewIdIs(objects, m, root, live, cache, codec, v, r, a);
    NewAfter(objects, m, root, live, cache, codec, v, r, a);
    NewGroupBase(m, cache, codec, v, r.m, After(objects, r), r.ids[a], NewGroups(m, root, live)[a]);
    GroupOkIffFramesFit(objects, m, After(objects, r), r.m, codec, r.ids[a]);
  }

  lemma OtherGroupOk(objects: Objects, m: Manifest, root: nat, live: set<nat>, cache: Cache, codec: Codec, v: nat,
                     r: TreeResult, g: nat)
    requires TreeStep(m, root, live, cache, codec, v, r) && Sane(objects, m, codec) && g !in r.ids
    ensures GroupOk(After(objects, r), r.m, codec, g)
  {
    hide NewGroups, GroupBlob, GroupTable, PagesAt, TableAt, OwnGroups, After, SlotWrite, UniquePages;
    if g in TreeIds(m, root) {
      assert KeyAt(r.m, g).None?;
    } else {
      UntouchedAfter(objects, m, root, live, cache, codec, v, r, g);
    }
  }

  // ---------- the theorems ----------

  /** The database still materializes after the compaction exactly if the old frames fit the new groups. */
  lemma MaterializesIffOverridesFit(objects: Objects, m: Manifest, root: nat, live: set<nat>, cache: Cache,
                                    codec: Codec, v: nat, r: TreeResult)
    requires TreeStep(m, root, live, cache, codec, v, r) && CanCompact(objects, m, root, live, cache, codec)
    ensures Materializable(After(objects, r), r.m, codec) <==> OverridesFit(objects, m, root, live, codec)
  {
    StepFacts(m, root, live, cache, codec, v, r);
    hide TreeStep, NewGroups, After, GroupOk, CanCompact, NewId, FramesFit;
    forall a | 0 <= a < |NewGroups(m, root, live)|
      ensures GroupOk(After(objects, r), r.m, codec, r.ids[a]) <==>
              FramesFit(objects, m, codec, NewId(m, root, a), |NewGroups(m, root, live)[a]|)
    {
      NewGroupOkIff(objects, m, root, live, cache, codec, v, r, a);
    }
    forall g: nat | g !in r.ids
      ensures GroupOk(After(objects, r), r.m, codec, g)
    {
      assert Sane(objects, m, codec) by { CanParts(objects, m, root, live, cache, codec); }
      OtherGroupOk(objects, m, root, live, cache, codec, v, r, g);
    }
    assert m.pageCount > 0 && m.pageSize > 0 by { CanParts(objects, m, root, live, cache, codec); }
    if OverridesFit(objects, m, root, live, codec) {
      forall g: nat
        ensures GroupOk(After(objects, r), r.m, codec, g)
      {
        if g in r.ids {
          var a :| 0 <= a < |r.ids| && r.ids[a] == g;
        }
      }
    }
  }

  lemma StepFacts(m: Manifest, root: nat, live: set<nat>, cache: Cache, codec: Codec, v: nat, r: TreeResult)
    requires TreeStep(m, root, live, cache, codec, v, r)
    ensures |r.ids| == |NewGroups(m, root, live)| && SameFrame(m, r.m)
  {
    hide NewGroups, KeyAt, PagesAt, TableAt;
  }

  lemma CanParts(objects: Objects, m: Manifest, root: nat, live: set<nat>, cache: Cache, codec: Codec)
    requires CanCompact(objects, m, root, live, cache, codec)
    ensures Sane(objects, m, codec) && Materializable(objects, m, codec) && WellKeyed(m) && UniquePages(m)
    ensures m.pageCount > 0 && m.pageSize > 0 && Lawful(codec, m.pageSize)
    ensures root in m.btrees && TreeIsKeyed(m, TreeIds(m, root))
    ensures CacheAgrees(objects, m, codec, cache, KeptOf(m, root, live))
  {
  }

  lemma SlotKeepsBytesIff(objects: Objects, m: Manifest, cache: Cache, codec: Codec, v: nat, m': Manifest,
                          objects': Objects, g: nat, pages: seq<nat>, j: nat)
    requires Lawful(codec, m.pageSize) && IsNewGroup(m, cache, codec, v, m', objects', g, pages) && j < |pages|
    requires GroupOk(objects', m', codec, g) && SameOverrides(objects, m, objects', m', codec, g)
    requires cache(pages[j]).Some?
    ensures var was := cache(pages[j]).value;
            OrZeros(SlotWrite(objects', m', codec, g, j), m'.pageSize) == was <==>
              SlotHarmless(objects, m, codec, g, j, was)
  {
    NewGroupPage(m, cache, codec, v, m', objects', g, pages, j);
    assert KeyAt(m', g).Some? && j < |PagesAt(m', g)|;
    hide Lawful, IsNewGroup, SlotWrite, FrameBytes, SliceAt, OverridesAt, GroupOk, PagesAt, KeyAt;
    assert FrameIndex(m', j) == FrameIndex(m, j) && FrameStart(m', FrameIndex(m, j)) == FrameStart(m, FrameIndex(m, j));
    if FrameIndex(m, j) in OverridesAt(m, g) {
      assert FramePage(objects', m', codec, g, j) == FramePage(objects, m, codec, g, j);
      StaleIsThere(objects', m', codec, g, j);
    }
  }

  /**
   A packed page shows its old bytes exactly if no old frame covers its new position, or the frame
   holds them there.
   */
  lemma PackedPageKeepsBytesIff(objects: Objects, m: Manifest, root: nat, live: set<nat>, cache: Cache, codec: Codec,
                                v: nat, r: TreeResult, a: nat, j: nat)
    requires TreeStep(m, root, live, cache, codec, v, r) && CanCompact(objects, m, root, live, cache, codec)
    requires Materializable(After(objects, r), r.m, codec)
    requires a < |NewGroups(m, root, live)| && j < |NewGroups(m, root, live)[a]|
    ensures var p := NewGroups(m, root, live)[a][j];
            var was := PageContent(objects, m, codec, p);
            PageContent(After(objects, r), r.m, codec, p) == was <==>
              SlotHarmless(objects, m, codec, NewId(m, root, a), j, was)
  {
    CanParts(objects, m, root, live, cache, codec);
    PackedAt(objects, m, root, live, cache, codec, v, r, a, j);
    hide TreeStep, NewGroups, CanCompact, SlotWrite, NewId, PageContent, Lawful, PagesAt, KeyAt, UniquePages, After,
         IsNewGroup, SameOverrides,
         WellKeyed, CacheAgrees, SlotHarmless, OrZeros;
    var p, after := NewGroups(m, root, live)[a][j], After(objects, r);
    ContentAt(after, r.m, codec, p, r.ids[a], j);
    SlotKeepsBytesIff(objects, m, cache, codec, v, r.m, after, r.ids[a], NewGroups(m, root, live)[a], j);
  }

  /** What is known of the place a page is packed into. */
  lemma PackedAt(objects: Objects, m: Manifest, root: nat, live: set<nat>, cache: Cache, codec: Codec, v: nat,
                 r: TreeResult, a: nat, j: nat)
    requires TreeStep(m, root, live, cache, codec, v, r) && CanCompact(objects, m, root, live, cache, codec)
    requires a < |NewGroups(m, root, live)| && j < |NewGroups(m, root, live)[a]|
    ensures var p := NewGroups(m, root, live)[a][j];
            && |r.ids| == |NewGroups(m, root, live)| && r.ids[a] == NewId(m, root, a)
            && Located(r.m, p, r.ids[a], j) && UniquePages(r.m)
            && cache(p) == Some(PageContent(objects, m, codec, p))
            && SameOverrides(objects, m, After(objects, r), r.m, codec, r.ids[a])
            && IsNewGroup(m, cache, codec, v, r.m, After(objects, r), r.ids[a], NewGroups(m, root, live)[a])
  {
    CanParts(objects, m, root, live, cache, codec);
    assert m.pagesPerGroup > 0;
    hide TreeStep, NewGroups, CanCompact, NewId, PageContent, Lawful, PagesAt, UniquePages, After, SameOverrides,
         WellKeyed, CacheAgrees,
         Materializable, GroupBlob, GroupTable, TableAt, ObjectAt, StrictlyAscending;
    NewIdIs(objects, m, root, live, cache, codec, v, r, a);
    NewAfter(objects, m, root, live, cache, codec, v, r, a);
    UniqueStep(m, root, live, cache, codec, v, r);
    CachedContent(objects, m, root, live, cache, codec, a, j);
  }

  lemma UniqueStep(m: Manifest, root: nat, live: set<nat>, cache: Cache, codec: Codec, v: nat, r: TreeResult)
    requires TreeStep(m, root, live, cache, codec, v, r) && UniquePages(m) && TreeIsKeyed(m, TreeIds(m, root))
    ensures UniquePages(r.m)
  {
    forall p: nat, g: nat, i: nat, h: nat, j: nat | Located(r.m, p, g, i) && Located(r.m, p, h, j)
      ensures g == h && i == j
    {
      UniqueAfter(m, root, live, cache, codec, v, r, p, g, i, h, j);
    }
  }

  /** A page to be packed is kept, and cached as stored. */
  lemma CachedContent(objects: Objects, m: Manifest, root: nat, live: set<nat>, cache: Cache, codec: Codec, a: nat,
                      j: nat)
    requires CanCompact(objects, m, root, live, cache, codec) && m.pagesPerGroup > 0
    requires a < |NewGroups(m, root, live)| && j < |NewGroups(m, root, live)[a]|
    ensures var p := NewGroups(m, root, live)[a][j];
            cache(p) == Some(PageContent(objects, m, codec, p)) && p in KeptOf(m, root, live)
  {
    hide PageContent, Kept, ChunkPages, Materializable, Lawful, UniquePages;
    KeptPages(m, TreeIds(m, root), live);
    ChunkAscends(KeptOf(m, root, live), m.pagesPerGroup, a);
    var p := NewGroups(m, root, live)[a][j];
    var x :| 0 <= x < |KeptOf(m, root, live)| && KeptOf(m, root, live)[x] == p;
  }

  /** In a group that materializes, the frame covering a position holds a page for it. */
  lemma StaleIsThere(objects: Objects, m: Manifest, codec: Codec, g: nat, j: nat)
    requires GroupOk(objects, m, codec, g) && KeyAt(m, g).Some? && j < |PagesAt(m, g)|
    requires FrameIndex(m, j) in OverridesAt(m, g)
    ensures FramePage(objects, m, codec, g, j).Some?
  {
    hide PagesAt, FrameIndex, SliceAt, FrameBytes;
    var f := FrameIndex(m, j);
    InFrame(m, j);
    assert FrameOk(objects, m, codec, g, f);
    FrameCovers(objects, m, codec, g, f, j);
  }

  /** A page of a group the tree neither owned nor took keeps its bytes. */
  lemma OtherPageKeepsBytes(objects: Objects, m: Manifest, root: nat, live: set<nat>, cache: Cache, codec: Codec,
                            v: nat, r: TreeResult, p: nat, g: nat, i: nat)
    requires TreeStep(m, root, live, cache, codec, v, r) && CanCompact(objects, m, root, live, cache, codec)
    requires Materializable(After(objects, r), r.m, codec) && Located(r.m, p, g, i) && g !in r.ids
    ensures Located(m, p, g, i) && PageContent(After(objects, r), r.m, codec, p) == PageContent(objects, m, codec, p)
  {
    var a := LocatedAfter(m, root, live, cache, codec, v, r, p, g, i);
    hide NewGroups, GroupBlob, GroupTable, PagesAt, TableAt, OwnGroups, After, Kept, PageContent, Lawful, SlotWrite,
         TreeStep, CanCompact;
    CanParts(objects, m, root, live, cache, codec);
    UniqueStep(m, root, live, cache, codec, v, r);
    ContentAt(After(objects, r), r.m, codec, p, g, i);
    ContentAt(objects, m, codec, p, g, i);
    UntouchedAfter(objects, m, root, live, cache, codec, v, r, g);
  }

  ghost predicate KeepsMeaning(objects: Objects, m: Manifest, r: TreeResult, codec: Codec)
    requires Materializable(objects, m, codec)
  {
    && Materializable(After(objects, r), r.m, codec)
    && forall p: nat :: Listed(r.m, p) ==>
         Listed(m, p) && PageContent(After(objects, r), r.m, codec, p) == PageContent(objects, m, codec, p)
  }

  /**
   Compacting a tree keeps the meaning of the manifest exactly if the override frames on the ids it
   will use are harmless: long enough for the new groups, and showing no page bytes it did not have.
   */
  lemma MeaningKeptIffOverridesHarmless(objects: Objects, m: Manifest, root: nat, live: set<nat>, cache: Cache,
                                        codec: Codec, v: nat, r: TreeResult)
    requires TreeStep(m, root, live, cache, codec, v, r) && CanCompact(objects, m, root, live, cache, codec)
    ensures KeepsMeaning(objects, m, r, codec) <==> OverridesHarmless(objects, m, root, live, codec)
  {
    MaterializesIffOverridesFit(objects, m, root, live, cache, codec, v, r);
    if Materializable(After(objects, r), r.m, codec) {
      if OverridesAgree(objects, m, root, live, codec) {
        ForwardMeaning(objects, m, root, live, cache, codec, v, r);
      }
      if KeepsMeaning(objects, m, r, codec) {
        BackwardMeaning(objects, m, root, live, cache, codec, v, r);
      }
    }
  }

  lemma ForwardMeaning(objects: Objects, m: Manifest, root: nat, live: set<nat>, cache: Cache, codec: Codec, v: nat,
                       r: TreeResult)
    requires TreeStep(m, root, live, cache, codec, v, r) && CanCompact(objects, m, root, live, cache, codec)
    requires Materializable(After(objects, r), r.m, codec) && OverridesAgree(objects, m, root, live, codec)
    ensures KeepsMeaning(objects, m, r, codec)
  {
    CanParts(objects, m, root, live, cache, codec);
    hide TreeStep, NewGroups, PagesAt, KeyAt, After, PageContent, Lawful, CanCompact, Kept, SlotHarmless, NewId,
         Materializable;
    forall p: nat | Listed(r.m, p)
      ensures Listed(m, p) && PageContent(After(objects, r), r.m, codec, p) == PageContent(objects, m, codec, p)
    {
      var g: nat, i: nat :| Located(r.m, p, g, i);
      var a := LocatedAfter(m, root, live, cache, codec, v, r, p, g, i);
      if g in r.ids {
        StepFacts(m, root, live, cache, codec, v, r);
        var x, y := KeptWasLocated(m, root, live, p);
        PackedPageKeepsBytesIff(objects, m, root, live, cache, codec, v, r, a, i);
      } else {
        OtherPageKeepsBytes(objects, m, root, live, cache, codec, v, r, p, g, i);
      }
    }
  }

  lemma BackwardMeaning(objects: Objects, m: Manifest, root: nat, live: set<nat>, cache: Cache, codec: Codec, v: nat,
                        r: TreeResult)
    requires TreeStep(m, root, live, cache, codec, v, r) && CanCompact(objects, m, root, live, cache, codec)
    requires KeepsMeaning(objects, m, r, codec)
    ensures OverridesAgree(objects, m, root, live, codec)
  {
    CanParts(objects, m, root, live, cache, codec);
    hide PagesAt, KeyAt, After, PageContent, Lawful, CanCompact, Kept, SlotHarmless, NewId, Materializable, NewGroups;
    forall a, j | 0 <= a < |NewGroups(m, root, live)| && 0 <= j < |NewGroups(m, root, live)[a]|
      ensures SlotHarmless(objects, m, codec, NewId(m, root, a), j, PageContent(objects, m, codec,
        NewGroups(m, root, live)[a][j]))
    {
      PackedPageKeepsBytesIff(objects, m, root, live, cache, codec, v, r, a, j);
      assert r.ids[a] in r.ids;
      assert Located(r.m, NewGroups(m, root, live)[a][j], r.ids[a], j);
    }
  }

  /**
   With harmless overrides the result can be compacted again, and every listed page was listed before
   with the same bytes.
   */
  lemma TreeCompactionKeepsBytes(objects: Objects, m: Manifest, root: nat, live: set<nat>, cache: Cache, codec: Codec,
                                 v: nat, r: TreeResult)
    requires TreeStep(m, root, live, cache, codec, v, r) && CanCompact(objects, m, root, live, cache, codec)
    requires OverridesHarmless(objects, m, root, live, codec)
    ensures Sane(After(objects, r), r.m, codec) && TreeIsKeyed(r.m, r.ids) && KeepsMeaning(objects, m, r, codec)
  {
    hide OverridesHarmless, NewGroups, GroupBlob, GroupTable, PagesAt, TableAt, OwnGroups, After, PageContent, Lawful,
         Materializable, UniquePages,
         CanCompact, KeyAt;
    CanParts(objects, m, root, live, cache, codec);
    MeaningKeptIffOverridesHarmless(objects, m, root, live, cache, codec, v, r);
    UniqueStep(m, root, live, cache, codec, v, r);
    assert forall i :: 0 <= i < |r.ids| ==> r.ids[i] in r.ids;
  }
}
