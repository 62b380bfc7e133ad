/**
 Which stored bytes a page of the database is, over the manifest's fields alone: the place of a
 page (src/tiered/manifest.rs:400-440), the object and the slice it is read from, and when a
 manifest can be materialized at all (src/tiered/bench.rs:801-924).
 */
module PageMap {
  import opened Common
  import opened Tiered
  import opened Arithmetic

  predicate HasObject(m: Manifest, g: nat) {
    g < |m.pageGroupKeys| && m.pageGroupKeys[g] != None
  }

  /** Page `p` in a manifest that lists its groups. */
  predicate ListedAt(m: Manifest, p: nat, g: nat, i: nat) {
    HasObject(m, g) && g < |m.groupPages| && i < |m.groupPages[g]| && m.groupPages[g][i] == p
  }

  /** Page `p` in a manifest of fixed-size groups in page order. */
  predicate StridedAt(m: Manifest, p: nat, g: nat, i: nat) {
    && m.pagesPerGroup > 0 && p < m.pageCount
    && g == p / m.pagesPerGroup && i == p % m.pagesPerGroup && HasObject(m, g)
  }

  /** The length of group `g`: of its list, or of its stride of the database. */
  function PagesInGroup(m: Manifest, g: nat): nat {
    if !m.positional then if g < |m.groupPages| then |m.groupPages[g]| else 0
    else
      var left := m.pageCount - g * m.pagesPerGroup;
      if left < 0 then 0 else if left < m.pagesPerGroup then left else m.pagesPerGroup
  }

  function Cut(bytes: Option<seq<Byte>>, at: nat, size: nat): Option<Page> {
    if bytes.Some? && at + size <= |bytes.value| then Some(bytes.value[at..at + size]) else None
  }

  predicate Overridden(m: Manifest, g: nat, i: nat) {
    m.subPagesPerFrame > 0 && g < |m.subframeOverrides| && i / m.subPagesPerFrame in m.subframeOverrides[g]
  }

  predicate Seekable(m: Manifest, g: nat) {
    m.subPagesPerFrame > 0 && g < |m.frameTables| && |m.frameTables[g]| > 0
  }

  /** The override frame `f` of group `g`, decoded. */
  function OverrideImage(objects: Objects, m: Manifest, codec: Codec, g: nat, f: nat): Option<seq<Byte>>
    requires g < |m.subframeOverrides| && f in m.subframeOverrides[g]
  {
    var key := m.subframeOverrides[g][f];
    if key in objects then codec.decodeFrame(g, f, objects[key]) else None
  }

  /** The object of group `g`, decoded by its frame table if it has one. */
  function GroupImage(objects: Objects, m: Manifest, codec: Codec, g: nat): Option<seq<Byte>>
    requires HasObject(m, g)
  {
    var key := m.pageGroupKeys[g].value;
    if key !in objects then None
    else if Seekable(m, g) then codec.decodeSeekable(g, objects[key], m.frameTables[g], PagesInGroup(m, g), m.pageCount)
    else codec.decodeGroup(g, objects[key])
  }

  /** Position `i` of group `g`: its slice of the override frame it falls in, or else of the group's own object. */
  function StoredSlice(objects: Objects, m: Manifest, codec: Codec, g: nat, i: nat): Option<Page>
    requires HasObject(m, g)
  {
    if Overridden(m, g, i) then
      var spf := m.subPagesPerFrame;
      Cut(OverrideImage(objects, m, codec, g, i / spf), i % spf * m.pageSize, m.pageSize)
    else Cut(GroupImage(objects, m, codec, g), i * m.pageSize, m.pageSize)
  }

  /** The copy loop starts at the overridden frame, or else at the group, and stops at a page number out of range. */
  ghost predicate CopyReaches(m: Manifest, g: nat, i: nat)
    requires g < |m.groupPages| && i < |m.groupPages[g]|
  {
    var from := if Overridden(m, g, i) then i / m.subPagesPerFrame * m.subPagesPerFrame else 0;
    forall j :: 0 <= from <= j <= i ==> m.groupPages[g][j] < m.pageCount
  }

  /** Every object is there and decodes, and every override frame covers the positions it stands for. */
  ghost predicate Restorable(objects: Objects, m: Manifest, codec: Codec) {
    m.pageCount > 0 && m.pageSize > 0 && forall g: nat :: HasObject(m, g) ==> GroupFits(objects, m, codec, g)
  }

  predicate GroupFits(objects: Objects, m: Manifest, codec: Codec, g: nat)
    requires HasObject(m, g)
  {
    && GroupImage(objects, m, codec, g) != None
    && (m.subPagesPerFrame > 0 && g < |m.subframeOverrides| ==>
          forall f <- m.subframeOverrides[g].Keys :: OverrideFits(objects, m, codec, g, f))
  }

  predicate OverrideFits(objects: Objects, m: Manifest, codec: Codec, g: nat, f: nat)
    requires g < |m.subframeOverrides| && f in m.subframeOverrides[g]
  {
    var bytes := OverrideImage(objects, m, codec, g, f);
    var left := PagesInGroup(m, g) - f * m.subPagesPerFrame;
    && bytes != None
    && (left <= 0 || (if left < m.subPagesPerFrame then left else m.subPagesPerFrame) * m.pageSize <= |bytes.value|)
  }

  // ---------- the page map of the manifest, field by field ----------

  lemma PagesInGroupAre(m: Manifest, g: nat)
    ensures |PagesAt(m, g)| == PagesInGroup(m, g)
  {
  }

  /** In a manifest that lists its groups a page sits where the lists say. */
  lemma ListedPlace(m: Manifest, p: nat, g: nat, i: nat)
    requires !m.positional
    ensures Located(m, p, g, i) <==> ListedAt(m, p, g, i)
    ensures g < |m.groupPages| ==> PagesAt(m, g) == m.groupPages[g]
  {
  }

  lemma StridedPages(m: Manifest, g: nat, i: nat)
    requires m.positional
    ensures i < |PagesAt(m, g)| <==> i < m.pagesPerGroup && g * m.pagesPerGroup + i < m.pageCount
    ensures i < |PagesAt(m, g)| ==> PagesAt(m, g)[i] == g * m.pagesPerGroup + i
  {
  }

  /** In a positional manifest page `p` sits at remainder and quotient by the group size, and nowhere else. */
  lemma StridedPlace(m: Manifest, p: nat, g: nat, i: nat)
    requires m.positional
    ensures Located(m, p, g, i) <==> StridedAt(m, p, g, i)
  {
    hide PagesAt;
    StridedPages(m, g, i);
    if m.pagesPerGroup > 0 {
      QuotientAndRemainder(p, m.pagesPerGroup, g, i);
    }
  }

  lemma StridedPagesAreUnique(m: Manifest)
    requires m.positional
    ensures UniquePages(m)
  {
    forall p: nat, g: nat, i: nat, h: nat, j: nat | Located(m, p, g, i) && Located(m, p, h, j)
      ensures g == h && i == j
    {
      StridedPlace(m, p, g, i);
      StridedPlace(m, p, h, j);
    }
  }

  lemma OverrideImageIs(objects: Objects, m: Manifest, codec: Codec, g: nat, f: nat)
    requires f in OverridesAt(m, g)
    ensures FrameBytes(objects, m, codec, g, f) == OverrideImage(objects, m, codec, g, f)
    ensures FrameOk(objects, m, codec, g, f) <==> OverrideFits(objects, m, codec, g, f)
  {
    PagesInGroupAre(m, g);
  }

  lemma GroupImageIs(objects: Objects, m: Manifest, codec: Codec, g: nat)
    requires HasObject(m, g)
    ensures KeyAt(m, g).Some? && BaseBytes(objects, m, codec, g) == GroupImage(objects, m, codec, g)
  {
    PagesInGroupAre(m, g);
  }

  lemma GroupFitsIs(objects: Objects, m: Manifest, codec: Codec, g: nat)
    ensures GroupOk(objects, m, codec, g) <==> (HasObject(m, g) ==> GroupFits(objects, m, codec, g))
  {
    hide BaseBytes, GroupImage, FrameOk, OverrideFits;
    if HasObject(m, g) {
      GroupImageIs(objects, m, codec, g);
      forall f | f in OverridesAt(m, g)
        ensures FrameOk(objects, m, codec, g, f) <==> OverrideFits(objects, m, codec, g, f)
      {
        OverrideImageIs(objects, m, codec, g, f);
      }
    }
  }

  /** A manifest materializes exactly when its objects, named field by field, are there and fit. */
  lemma RestorableIs(objects: Objects, m: Manifest, codec: Codec)
    ensures Materializable(objects, m, codec) <==> Restorable(objects, m, codec)
  {
    forall g: nat
      ensures GroupOk(objects, m, codec, g) <==> (HasObject(m, g) ==> GroupFits(objects, m, codec, g))
    {
      GroupFitsIs(objects, m, codec, g);
    }
  }

  lemma CutIsSlice(bytes: Option<seq<Byte>>, i: nat, size: nat)
    requires bytes.Some?
    ensures SliceAt(bytes.value, i, size) == Cut(bytes, i * size, size)
  {
    NextMultiple(i, size);
  }

  /** What a position contributes is its stored slice, if the copy loop gets to it. */
  lemma ContributionIs(objects: Objects, m: Manifest, codec: Codec, g: nat, i: nat)
    requires GroupOk(objects, m, codec, g) && HasObject(m, g) && i < |PagesAt(m, g)|
    ensures SlotWrite(objects, m, codec, g, i) ==
            if Reached(PagesAt(m, g), if Overridden(m, g, i) then FrameStart(m, i / m.subPagesPerFrame) else 0, i,
                       m.pageCount)
            then StoredSlice(objects, m, codec, g, i) else None
  {
    hide PagesAt, BaseBytes, GroupImage, FrameBytes, OverrideImage, FrameOk, SliceAt, Cut;
    GroupImageIs(objects, m, codec, g);
    CutIsSlice(GroupImage(objects, m, codec, g), i, m.pageSize);
    if Overridden(m, g, i) {
      var spf, f := m.subPagesPerFrame, i / m.subPagesPerFrame;
      FrameOf(i, spf, f);
      OverrideImageIs(objects, m, codec, g, f);
      assert FrameOk(objects, m, codec, g, f);
      CutIsSlice(OverrideImage(objects, m, codec, g, f), i % spf, m.pageSize);
      assert i - FrameStart(m, f) == i % spf;
    }
  }

  /** Page `p` of a database in a positional manifest. */
  function StridedPage(objects: Objects, m: Manifest, codec: Codec, p: nat): Page {
    if m.pagesPerGroup > 0 && HasObject(m, p / m.pagesPerGroup)
    then OrZeros(StoredSlice(objects, m, codec, p / m.pagesPerGroup, p % m.pagesPerGroup), m.pageSize)
    else Zeros(m.pageSize)
  }

  lemma StridedContent(objects: Objects, m: Manifest, codec: Codec, p: nat)
    requires Materializable(objects, m, codec) && m.positional && p < m.pageCount
    ensures UniquePages(m) && PageContent(objects, m, codec, p) == StridedPage(objects, m, codec, p)
  {
    hide PageContent, UniquePages, SlotWrite, StoredSlice, GroupOk;
    StridedPagesAreUnique(m);
    if m.pagesPerGroup > 0 && HasObject(m, p / m.pagesPerGroup) {
      var g, i := p / m.pagesPerGroup, p % m.pagesPerGroup;
      StridedPlace(m, p, g, i);
      ContentAt(objects, m, codec, p, g, i);
      ContributionIs(objects, m, codec, g, i);
    } else {
      forall g: nat, i: nat
        ensures !Located(m, p, g, i)
      {
        StridedPlace(m, p, g, i);
      }
      UnlistedContent(objects, m, codec, p);
    }
  }

  lemma UnlistedContent(objects: Objects, m: Manifest, codec: Codec, p: nat)
    requires Materializable(objects, m, codec) && !Listed(m, p)
    ensures PageContent(objects, m, codec, p) == Zeros(m.pageSize)
  {
  }

  /** No page is listed twice among the groups that have an object. */
  ghost predicate ListedOnce(m: Manifest) {
    forall p: nat, g: nat, i: nat, h: nat, j: nat ::
      ListedAt(m, p, g, i) && ListedAt(m, p, h, j) ==> g == h && i == j
  }

  lemma ListedPagesAreUnique(m: Manifest)
    requires !m.positional
    ensures UniquePages(m) <==> ListedOnce(m)
  {
    forall p: nat, g: nat, i: nat
      ensures Located(m, p, g, i) <==> ListedAt(m, p, g, i)
    {
      ListedPlace(m, p, g, i);
    }
  }

  /** The page at position `i` of list `g`. */
  ghost function ListedPage(objects: Objects, m: Manifest, codec: Codec, g: nat, i: nat): Page
    requires HasObject(m, g) && g < |m.groupPages| && i < |m.groupPages[g]|
  {
    if CopyReaches(m, g, i) then OrZeros(StoredSlice(objects, m, codec, g, i), m.pageSize) else Zeros(m.pageSize)
  }

  lemma ListedContent(objects: Objects, m: Manifest, codec: Codec, p: nat, g: nat, i: nat)
    requires Materializable(objects, m, codec) && !m.positional && ListedOnce(m) && ListedAt(m, p, g, i)
    ensures PageContent(objects, m, codec, p) == ListedPage(objects, m, codec, g, i)
  {
    hide PageContent, UniquePages, SlotWrite, StoredSlice, GroupOk, ListedOnce;
    ListedPagesAreUnique(m);
    ListedPlace(m, p, g, i);
    ContentAt(objects, m, codec, p, g, i);
    ContributionIs(objects, m, codec, g, i);
  }

  /** Page `p` of a file of whole pages. */
  predicate HasPage(file: seq<Byte>, p: nat, size: nat, page: Page) {
    p * size + size <= |file| && file[p * size..p * size + size] == page
  }
}
