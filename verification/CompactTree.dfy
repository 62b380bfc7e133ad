/**
 Rewriting one tree's groups in a manifest (src/tiered/bench.rs:591-690): the manifest's vectors
 are updated in place of a local copy, uploads and replaced keys are collected on the way.
 */
module CompactTree {
  import opened Common
  import opened StoreKeys
  import opened Tiered
  import opened Compaction
  import opened Graphs

  datatype Upload = Upload(key: Key, blob: Blob)

  /** The manifest after one tree, the tree's new group ids, and what to upload and retire. */
  datatype TreeResult = TreeResult(m: Manifest, ids: seq<nat>, uploads: seq<Upload>, replaced: seq<Key>)

  /** A page the cache cannot read is stored as zeros. */
  function Images(cache: Cache, pages: seq<nat>, pageSize: nat): (r: seq<Page>)
    ensures |r| == |pages|
    ensures forall i :: 0 <= i < |r| ==> r[i] == OrZeros(cache(pages[i]), pageSize)
  {
    seq(|pages|, i requires 0 <= i < |pages| => OrZeros(cache(pages[i]), pageSize))
  }

  function GroupBlob(m: Manifest, cache: Cache, codec: Codec, g: nat, pages: seq<nat>): Blob {
    if m.subPagesPerFrame > 0 then codec.encodeSeekable(g, m.subPagesPerFrame, Images(cache, pages, m.pageSize)).0
    else codec.encodeGroup(g, Images(cache, pages, m.pageSize))
  }

  function GroupTable(m: Manifest, cache: Cache, codec: Codec, g: nat, pages: seq<nat>): seq<FrameEntry> {
    codec.encodeSeekable(g, m.subPagesPerFrame, Images(cache, pages, m.pageSize)).1
  }

  /** The tree's ids are distinct and name listed groups of a B-tree-aware manifest. */
  ghost predicate OwnGroups(m: Manifest, ids: seq<nat>) {
    && !m.positional && Distinct(ids)
    && forall i :: 0 <= i < |ids| ==> ids[i] < |m.groupPages|
  }

  /** Push empties until index `g` exists. */
  function Grow<T>(s: seq<T>, g: nat, empty: T): (r: seq<T>)
    ensures |r| == if |s| <= g then g + 1 else |s|
    ensures forall i :: 0 <= i < |r| ==> r[i] == if i < |s| then s[i] else empty
  {
    if |s| <= g then s + seq(g + 1 - |s|, _ => empty) else s
  }

  /** Fields that compacting a tree leaves alone. */
  predicate SameFrame(m: Manifest, m': Manifest) {
    && m'.version == m.version && m'.changeCounter == m.changeCounter
    && m'.pageCount == m.pageCount && m'.pageSize == m.pageSize && m'.pagesPerGroup == m.pagesPerGroup
    && m'.interiorChunkKeys == m.interiorChunkKeys && m'.indexChunkKeys == m.indexChunkKeys
    && m'.subPagesPerFrame == m.subPagesPerFrame && m'.subframeOverrides == m.subframeOverrides
    && m'.positional == m.positional
  }

  /** Assigned ids reuse the tree's own in order, then are fresh; none twice. */
  ghost predicate IdsAssigned(m: Manifest, prior: seq<nat>, ids: seq<nat>) {
    && Distinct(ids)
    && forall i :: 0 <= i < |ids| ==> if i < |prior| then ids[i] == prior[i] else ids[i] >= |m.groupPages|
  }

  /**
   The fresh ids of a tree: each adds to the vector length of the moment the number of fresh ids
   before it, so they leave growing gaps.
   */
  function FreshId(len: nat, k: nat): (r: nat)
    ensures r >= len
  {
    if k == 0 then len else FreshId(len, k - 1) + k + 1
  }

  lemma {:induction false} FreshIdIs(len: nat, k: nat)
    ensures FreshId(len, k) == len + k * (k + 3) / 2
  {
    if k > 0 {
      FreshIdIs(len, k - 1);
      assert k * (k + 3) == (k - 1) * (k + 2) + 2 * k + 2;
    }
  }

  /** The id of new group `n` of a tree that owns `prior`, in a manifest of `len` groups. */
  function IdAt(len: nat, prior: seq<nat>, n: nat): nat {
    if n < |prior| then prior[n] else FreshId(len, n - |prior|)
  }

  function LengthAfter(len: nat, prior: seq<nat>, n: nat): nat {
    if n <= |prior| then len else FreshId(len, n - 1 - |prior|) + 1
  }

  lemma LengthGrows(len: nat, prior: seq<nat>, n: nat)
    ensures LengthAfter(len, prior, n) >= len
  {
  }

  /** The ids are fixed by the manifest the tree starts from. */
  ghost predicate IdsByRule(m: Manifest, prior: seq<nat>, ids: seq<nat>) {
    forall i :: 0 <= i < |ids| ==> ids[i] == IdAt(|m.groupPages|, prior, i)
  }

  /** The first `|ids|` new groups stand under their ids; every other group is as it was. */
  ghost predicate AssignedViews(m0: Manifest, groups: seq<seq<nat>>, v: nat, m: Manifest, ids: seq<nat>)
    requires |ids| <= |groups|
  {
    && (forall i :: 0 <= i < |ids| ==> ids[i] < |m.groupPages|)
    && (forall g: nat :: KeyAt(m, g) == if g in ids then Some(PageGroup(g, v)) else KeyAt(m0, g))
    && (forall i :: 0 <= i < |ids| ==> PagesAt(m, ids[i]) == groups[i])
    && (forall g: nat :: g !in ids ==> PagesAt(m, g) == PagesAt(m0, g))
  }

  /** The state after the first `|ids|` new groups. */
  ghost predicate Assigned(m0: Manifest, prior: seq<nat>, groups: seq<seq<nat>>, v: nat, m: Manifest, ids: seq<nat>,
                           replaced: seq<Key>) {
    && |ids| <= |groups| && IdsAssigned(m0, prior, ids) && IdsByRule(m0, prior, ids)
    && SameFrame(m0, m) && m.btrees == m0.btrees && m.frameTables == m0.frameTables
    && |m.groupPages| == LengthAfter(|m0.groupPages|, prior, |ids|)
    && AssignedViews(m0, groups, v, m, ids)
    && ReplacedKeys(m0, ids, replaced)
  }

  ghost predicate ReplacedKeys(m: Manifest, ids: seq<nat>, replaced: seq<Key>) {
    forall k: Key :: k in replaced <==> exists g <- ids :: KeyAt(m, g) == Some(k)
  }

  lemma ReplacedNext(m: Manifest, ids: seq<nat>, replaced: seq<Key>, g: nat, key: Option<Key>)
    requires ReplacedKeys(m, ids, replaced) && key == KeyAt(m, g)
    ensures ReplacedKeys(m, ids + [g], if key.Some? then replaced + [key.value] else replaced)
  {
    hide KeyAt;
    var replaced' := if key.Some? then replaced + [key.value] else replaced;
    forall k: Key
      ensures k in replaced' <==> exists h <- ids + [g] :: KeyAt(m, h) == Some(k)
    {
      assert k in replaced' <==> k in replaced || key == Some(k);
      if h :| h in ids && KeyAt(m, h) == Some(k) {
        assert h in ids + [g];
      }
      assert g in ids + [g];
    }
  }

  /** The id of the next new group, src/tiered/bench.rs:596-601. */
  function NextId(m: Manifest, prior: seq<nat>, n: nat): nat {
    if n < |prior| then prior[n] else |m.groupPages| + n - |prior|
  }

  function WithGroup(m: Manifest, g: nat, key: Key, pages: seq<nat>): Manifest {
    m.(pageGroupKeys := Grow(m.pageGroupKeys, g, None)[g := Some(key)],
       groupPages := Grow(m.groupPages, g, [])[g := pages])
  }

  lemma WithGroupViews(m: Manifest, g: nat, key: Key, pages: seq<nat>)
    requires !m.positional
    ensures var m' := WithGroup(m, g, key, pages);
            && |m'.groupPages| == (if |m.groupPages| <= g then g + 1 else |m.groupPages|)
            && forall h: nat ::
                 && KeyAt(m', h) == (if h == g then Some(key) else KeyAt(m, h))
                 && PagesAt(m', h) == if h == g then pages else PagesAt(m, h)
  {
  }

  /** The next id follows the rule and is none of the ids so far. */
  lemma NextIdIsNew(m0: Manifest, prior: seq<nat>, len: nat, ids: seq<nat>, g: nat)
    requires OwnGroups(m0, prior) && IdsAssigned(m0, prior, ids) && IdsByRule(m0, prior, ids)
    requires len == LengthAfter(|m0.groupPages|, prior, |ids|) && forall i :: 0 <= i < |ids| ==> ids[i] < len
    requires g == if |ids| < |prior| then prior[|ids|] else len + |ids| - |prior|
    ensures g !in ids && IdsAssigned(m0, prior, ids + [g]) && IdsByRule(m0, prior, ids + [g])
    ensures LengthAfter(|m0.groupPages|, prior, |ids| + 1) == if len <= g then g + 1 else len
  {
    assert g == IdAt(|m0.groupPages|, prior, |ids|);
  }

  lemma ViewsNext(m0: Manifest, groups: seq<seq<nat>>, v: nat, m: Manifest, ids: seq<nat>, g: nat)
    requires |ids| < |groups| && AssignedViews(m0, groups, v, m, ids) && g !in ids && !m.positional
    ensures AssignedViews(m0, groups, v, WithGroup(m, g, PageGroup(g, v), groups[|ids|]), ids + [g])
  {
    hide KeyAt, PagesAt, WithGroup;
    WithGroupViews(m, g, PageGroup(g, v), groups[|ids|]);
    assert forall h: nat :: h in ids + [g] <==> h in ids || h == g;
    assert forall i :: 0 <= i < |ids| ==> ids[i] in ids && ids[i] != g;
  }

  lemma AssignNext(m0: Manifest, prior: seq<nat>, groups: seq<seq<nat>>, v: nat, m: Manifest, ids: seq<nat>,
                   replaced: seq<Key>)
    requires OwnGroups(m0, prior) && Assigned(m0, prior, groups, v, m, ids, replaced) && |ids| < |groups|
    ensures var g := NextId(m, prior, |ids|);
            var priorKey := KeyAt(m, g);
            Assigned(m0, prior, groups, v, WithGroup(m, g, PageGroup(g, v), groups[|ids|]), ids + [g],
                     if priorKey.Some? then replaced + [priorKey.value] else replaced)
  {
    hide IdsByRule, IdsAssigned, LengthAfter, ReplacedKeys, PagesAt, KeyAt;
    var g := NextId(m, prior, |ids|);
    NextIdIsNew(m0, prior, |m.groupPages|, ids, g);
    ViewsNext(m0, groups, v, m, ids, g);
    ReplacedNext(m0, ids, replaced, g, KeyAt(m, g));
    hide AssignedViews;
    WithGroupViews(m, g, PageGroup(g, v), groups[|ids|]);
  }

  // ---------- retiring ----------

  /** The tree's ids that no new group took. */
  ghost function Gone(prior: seq<nat>, ids: seq<nat>): set<nat> {
    set g <- prior | g !in ids
  }

  ghost predicate Retired(m0: Manifest, gone: set<nat>, replaced0: seq<Key>, m: Manifest, replaced: seq<Key>) {
    && SameFrame(m0, m) && m.btrees == m0.btrees && m.frameTables == m0.frameTables
    && |m.groupPages| == |m0.groupPages|
    && (forall g: nat :: KeyAt(m, g) == if g in gone then None else KeyAt(m0, g))
    && (forall g: nat :: (if g < |m.groupPages| then m.groupPages[g] else []) ==
          if g in gone then [] else if g < |m0.groupPages| then m0.groupPages[g] else [])
    && (forall k: Key :: k in replaced <==> k in replaced0 || exists g <- gone :: KeyAt(m0, g) == Some(k))
  }

  /** Key and pages of one group cleared, as far as the vectors reach. */
  function WithoutGroup(m: Manifest, g: nat): Manifest {
    m.(pageGroupKeys := if g < |m.pageGroupKeys| then m.pageGroupKeys[g := None] else m.pageGroupKeys,
       groupPages := if g < |m.groupPages| then m.groupPages[g := []] else m.groupPages)
  }

  lemma RetireNext(m0: Manifest, gone: set<nat>, replaced0: seq<Key>, m: Manifest, replaced: seq<Key>, g: nat)
    requires Retired(m0, gone, replaced0, m, replaced)
    ensures Retired(m0, gone + {g}, replaced0, WithoutGroup(m, g),
                    if KeyAt(m, g).Some? then replaced + [KeyAt(m, g).value] else replaced)
  {
    var m', replaced' := WithoutGroup(m, g), if KeyAt(m, g).Some? then replaced + [KeyAt(m, g).value] else replaced;
    assert forall h: nat :: KeyAt(m', h) == if h == g then None else KeyAt(m, h);
    forall k: Key
      ensures k in replaced' <==> k in replaced0 || exists h <- gone + {g} :: KeyAt(m0, h) == Some(k)
    {
      assert k in replaced' <==> k in replaced || KeyAt(m, g) == Some(k);
      if h :| h in gone + {g} && KeyAt(m0, h) == Some(k) {
        assert h in gone || (h == g && KeyAt(m, g) == Some(k));
      }
      if KeyAt(m, g) == Some(k) {
        assert g in gone + {g} && KeyAt(m0, g) == Some(k);
      }
      if h :| h in gone && KeyAt(m0, h) == Some(k) {
        assert h in gone + {g};
      }
    }
  }

  /** src/tiered/bench.rs:661-675 */
  method RetireGroups(m0: Manifest, prior: seq<nat>, ids: seq<nat>, replaced0: seq<Key>)
    returns (m: Manifest, replaced: seq<Key>)
    ensures Retired(m0, Gone(prior, ids), replaced0, m, replaced)
  {
    m, replaced := m0, replaced0;
    ghost var gone := {};
    assert Retired(m0, gone, replaced0, m, replaced);
    hide Retired;
    for i := 0 to |prior|
      invariant gone == Gone(prior[..i], ids)
      invariant Retired(m0, gone, replaced0, m, replaced)
    {
      assert prior[..i + 1] == prior[..i] + [prior[i]];
      var g := prior[i];
      if g !in ids {
        RetireNext(m0, gone, replaced0, m, replaced, g);
        if g < |m.pageGroupKeys| {
          if m.pageGroupKeys[g].Some? {
            replaced := replaced + [m.pageGroupKeys[g].value];
          }
          m := m.(pageGroupKeys := m.pageGroupKeys[g := None]);
        }
        if g < |m.groupPages| {
          m := m.(groupPages := m.groupPages[g := []]);
        }
        gone := gone + {g};
      }
    }
    assert prior[..|prior|] == prior;
  }

  // ---------- the whole tree ----------

  ghost predicate UploadsFor(m: Manifest, cache: Cache, codec: Codec, v: nat, ids: seq<nat>, groups: seq<seq<nat>>,
                             uploads: seq<Upload>)
    requires |ids| <= |groups|
  {
    && |uploads| == |ids|
    && forall i :: 0 <= i < |ids| ==>
         uploads[i] == Upload(PageGroup(ids[i], v), GroupBlob(m, cache, codec, ids[i], groups[i]))
  }

  /** What compacting tree `root` into `groups` does, read through the views of the manifest. */
  ghost predicate TreeCompacted(m: Manifest, root: nat, groups: seq<seq<nat>>, cache: Cache, codec: Codec, v: nat,
                                r: TreeResult)
    requires root in m.btrees
  {
    var prior := m.btrees[root].groupIds;
    && |r.ids| == |groups| && IdsAssigned(m, prior, r.ids) && IdsByRule(m, prior, r.ids)
    && SameFrame(m, r.m) && r.m.btrees == m.btrees[root := TreeEntry(m.btrees[root].name, r.ids)]
    && |m.groupPages| <= |r.m.groupPages| == LengthAfter(|m.groupPages|, prior, |groups|)
    && (forall i :: 0 <= i < |r.ids| ==> r.ids[i] < |r.m.groupPages|)
    && (forall g: nat :: KeyAt(r.m, g) ==
          if g in r.ids then Some(PageGroup(g, v)) else if g in prior then None else KeyAt(m, g))
    && (forall i :: 0 <= i < |r.ids| ==> PagesAt(r.m, r.ids[i]) == groups[i])
    && (forall g: nat :: g !in r.ids ==> PagesAt(r.m, g) == if g in prior then [] else PagesAt(m, g))
    && (forall i :: 0 <= i < |r.ids| && m.subPagesPerFrame > 0 ==>
          TableAt(r.m, r.ids[i]) == GroupTable(m, cache, codec, r.ids[i], groups[i]))
    && (forall g: nat :: g !in r.ids || m.subPagesPerFrame == 0 ==> TableAt(r.m, g) == TableAt(m, g))
    && UploadsFor(m, cache, codec, v, r.ids, groups, r.uploads)
    && (forall k: Key :: k in r.replaced <==> exists g: nat :: (g in prior || g in r.ids) && KeyAt(m, g) == Some(k))
  }

  /** The group loop, src/tiered/bench.rs:595-659. */
  method AssignGroups(m0: Manifest, prior: seq<nat>, groups: seq<seq<nat>>, cache: Cache, codec: Codec, v: nat)
    returns (m: Manifest, ids: seq<nat>, uploads: seq<Upload>, tables: seq<(nat, seq<FrameEntry>)>, replaced: seq<Key>)
    ensures |ids| == |groups| && SameFrame(m0, m)
    ensures OwnGroups(m0, prior) ==> Assigned(m0, prior, groups, v, m, ids, replaced)
    ensures UploadsFor(m0, cache, codec, v, ids, groups, uploads)
    ensures if m0.subPagesPerFrame > 0 then TablesFor(m0, cache, codec, ids, groups, tables) else tables == []
  {
    m, ids, uploads, tables, replaced := m0, [], [], [], [];
    for n := 0 to |groups|
      invariant |ids| == n && SameFrame(m0, m)
      invariant OwnGroups(m0, prior) ==> Assigned(m0, prior, groups, v, m, ids, replaced)
      invariant UploadsFor(m0, cache, codec, v, ids, groups, uploads)
      invariant if m0.subPagesPerFrame > 0 then TablesFor(m0, cache, codec, ids, groups, tables) else tables == []
    {
      var g := NextId(m, prior, |ids|);
      if OwnGroups(m0, prior) {
        AssignNext(m0, prior, groups, v, m, ids, replaced);
      }
      ids := ids + [g];
      uploads := uploads + [Upload(PageGroup(g, v), GroupBlob(m, cache, codec, g, groups[n]))];
      if m.subPagesPerFrame > 0 {
        tables := tables + [(g, GroupTable(m, cache, codec, g, groups[n]))];
      }
      var oldKey := KeyAt(m, g);
      if oldKey.Some? {
        replaced := replaced + [oldKey.value];
      }
      m := WithGroup(m, g, PageGroup(g, v), groups[n]);
    }
  }

  ghost predicate TablesFor(m: Manifest, cache: Cache, codec: Codec, ids: seq<nat>, groups: seq<seq<nat>>,
                            tables: seq<(nat, seq<FrameEntry>)>)
    requires |ids| <= |groups|
  {
    && |tables| == |ids|
    && forall i :: 0 <= i < |ids| ==> tables[i] == (ids[i], GroupTable(m, cache, codec, ids[i], groups[i]))
  }

  /** src/tiered/bench.rs:685-690 */
  method PatchTables(m0: Manifest, tables: seq<(nat, seq<FrameEntry>)>) returns (m: Manifest)
    ensures m == m0.(frameTables := m.frameTables)
    ensures (forall i, j :: 0 <= i < j < |tables| ==> tables[i].0 != tables[j].0) ==>
              && (forall i :: 0 <= i < |tables| ==> TableAt(m, tables[i].0) == tables[i].1)
              && (forall g: nat :: (forall i :: 0 <= i < |tables| ==> tables[i].0 != g) ==>
                    TableAt(m, g) == TableAt(m0, g))
  {
    m := m0;
    for n := 0 to |tables|
      invariant m == m0.(frameTables := m.frameTables)
      invariant (forall i, j :: 0 <= i < j < |tables| ==> tables[i].0 != tables[j].0) ==>
                  && (forall i :: 0 <= i < n ==> TableAt(m, tables[i].0) == tables[i].1)
                  && (forall g: nat :: (forall i :: 0 <= i < n ==> tables[i].0 != g) ==>
                        TableAt(m, g) == TableAt(m0, g))
    {
      var (g, table) := tables[n];
      m := m.(frameTables := Grow(m.frameTables, g, [])[g := table]);
    }
  }

  method CompactGroups(m0: Manifest, root: nat, groups: seq<seq<nat>>, cache: Cache, codec: Codec, v: nat)
    returns (r: TreeResult)
    requires root in m0.btrees
    ensures SameFrame(m0, r.m)
    ensures OwnGroups(m0, m0.btrees[root].groupIds) ==> TreeCompacted(m0, root, groups, cache, codec, v, r)
  {
    var prior := m0.btrees[root].groupIds;
    var m, ids, uploads, tables, replaced := AssignGroups(m0, prior, groups, cache, codec, v);
    ghost var packed, replaced1 := m, replaced;
    m, replaced := RetireGroups(m, prior, ids, replaced);
    ghost var retired := m;
    m := m.(btrees := m.btrees[root := TreeEntry(m0.btrees[root].name, ids)]);
    m := PatchTables(m, tables);
    r := TreeResult(m, ids, uploads, replaced);
    if OwnGroups(m0, prior) {
      Assemble(m0, root, groups, cache, codec, v, packed, replaced1, retired, tables, r);
    }
  }

  lemma Assemble(m0: Manifest, root: nat, groups: seq<seq<nat>>, cache: Cache, codec: Codec, v: nat,
                 packed: Manifest, replaced1: seq<Key>, retired: Manifest, tables: seq<(nat, seq<FrameEntry>)>,
                   r: TreeResult)
    requires root in m0.btrees && OwnGroups(m0, m0.btrees[root].groupIds)
    requires |r.ids| == |groups| && Assigned(m0, m0.btrees[root].groupIds, groups, v, packed, r.ids, replaced1)
    requires Retired(packed, Gone(m0.btrees[root].groupIds, r.ids), replaced1, retired, r.replaced)
    requires r.m == retired.(btrees := retired.btrees[root := TreeEntry(m0.btrees[root].name, r.ids)],
      frameTables := r.m.frameTables)
    requires if m0.subPagesPerFrame > 0 then TablesFor(m0, cache, codec, r.ids, groups, tables) else tables == []
    requires forall i :: 0 <= i < |tables| ==> TableAt(r.m, tables[i].0) == tables[i].1
    requires forall g: nat :: (forall i :: 0 <= i < |tables| ==> tables[i].0 != g) ==>
               TableAt(r.m, g) == TableAt(retired, g)
    requires UploadsFor(m0, cache, codec, v, r.ids, groups, r.uploads)
    ensures TreeCompacted(m0, root, groups, cache, codec, v, r)
  {
    var prior := m0.btrees[root].groupIds;
    var gone := Gone(prior, r.ids);
    LengthGrows(|m0.groupPages|, prior, |groups|);
    forall g: nat
      ensures KeyAt(r.m, g) == if g in r.ids then Some(PageGroup(g, v)) else if g in prior then None else KeyAt(m0, g)
      ensures g !in r.ids ==> PagesAt(r.m, g) == if g in prior then [] else PagesAt(m0, g)
      ensures g in r.ids ==> PagesAt(r.m, g) == PagesAt(packed, g)
      ensures g !in r.ids || m0.subPagesPerFrame == 0 ==> TableAt(r.m, g) == TableAt(m0, g)
    {
      assert KeyAt(r.m, g) == KeyAt(retired, g) && TableAt(retired, g) == TableAt(packed, g);
    }
    forall k: Key
      ensures k in r.replaced <==> exists g: nat :: (g in prior || g in r.ids) && KeyAt(m0, g) == Some(k)
    {
      if k in r.replaced && k !in replaced1 {
        var g :| g in gone && KeyAt(packed, g) == Some(k);
        assert g in prior && KeyAt(m0, g) == Some(k);
      }
      if g: nat :| (g in prior || g in r.ids) && KeyAt(m0, g) == Some(k) {
        if g !in r.ids {
          assert g in gone && KeyAt(packed, g) == Some(k);
        }
      }
    }
  }
}
