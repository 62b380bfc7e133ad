/**
 Every tree of a manifest can be compacted: the step written out as a function. It shows that the
 theorems about steps speak of something, and gives the concrete manifests below their steps.
 */
module CompactionSteps {
  import opened Common
  import opened StoreKeys
  import opened Tiered
  import opened Compaction
  import opened CompactTree
  import opened CompactionTheorems

  function Max(a: nat, b: nat): nat { if a <= b then b else a }

  function IndexOf(s: seq<nat>, x: nat): (i: nat)
    requires x in s
    ensures i < |s| && s[i] == x
  {
    if s[0] == x then 0 else 1 + IndexOf(s[1..], x)
  }

  ghost function NewIds(m: Manifest, prior: seq<nat>, n: nat): (ids: seq<nat>)
    ensures |ids| == n
  {
    seq(n, i requires i >= 0 => IdAt(|m.groupPages|, prior, i))
  }

  ghost function KeysOf(m: Manifest, ids: seq<nat>): (keys: seq<Key>)
    ensures ReplacedKeys(m, ids, keys)
  {
    if ids == [] then []
    else
      var init, last := ids[..|ids| - 1], ids[|ids| - 1];
      assert ids == init + [last];
      ReplacedNext(m, init, KeysOf(m, init), last, KeyAt(m, last));
      if KeyAt(m, last).Some? then KeysOf(m, init) + [KeyAt(m, last).value] else KeysOf(m, init)
  }

  ghost function VectorLength(m: Manifest, prior: seq<nat>, n: nat): nat {
    Max(LengthAfter(|m.groupPages|, prior, n), Max(|m.pageGroupKeys|, |m.frameTables|))
  }

  /** The manifest after a tree, its vectors filled index by index. */
  ghost function PackedManifest(m: Manifest, root: nat, groups: seq<seq<nat>>, ids: seq<nat>, cache: Cache,
                                codec: Codec, v: nat): Manifest
    requires root in m.btrees && |ids| == |groups|
  {
    var prior := TreeIds(m, root);
    var n := VectorLength(m, prior, |groups|);
    m.(pageGroupKeys := seq(n, g requires g >= 0 =>
         if g in ids then Some(PageGroup(g, v)) else if g in prior then None else KeyAt(m, g)),
       groupPages := seq(LengthAfter(|m.groupPages|, prior, |groups|), g requires g >= 0 =>
         if g in ids then groups[IndexOf(ids, g)] else if g in prior then [] else PagesAt(m, g)),
       frameTables := seq(n, g requires g >= 0 =>
         if g in ids && m.subPagesPerFrame > 0 then GroupTable(m, cache, codec, g, groups[IndexOf(ids, g)])
           else TableAt(m, g)),
       btrees := m.btrees[root := TreeEntry(m.btrees[root].name, ids)])
  }

  ghost function PackedTree(m: Manifest, root: nat, live: set<nat>, cache: Cache, codec: Codec, v: nat): TreeResult
    requires root in m.btrees && m.pagesPerGroup > 0
  {
    var groups := NewGroups(m, root, live);
    var ids := NewIds(m, TreeIds(m, root), |groups|);
    var uploads := seq(|groups|, i requires 0 <= i < |groups| =>
      Upload(PageGroup(ids[i], v), GroupBlob(m, cache, codec, ids[i], groups[i])));
    TreeResult(PackedManifest(m, root, groups, ids, cache, codec, v), ids, uploads, KeysOf(m, TreeIds(m, root) + ids))
  }

  lemma {:induction false} FreshIdsGrow(len: nat, a: nat, b: nat)
    requires a < b
    ensures FreshId(len, a) < FreshId(len, b)
  {
    if a < b - 1 {
      FreshIdsGrow(len, a, b - 1);
    }
  }

  lemma NewIdsAreAssigned(m: Manifest, prior: seq<nat>, n: nat)
    requires OwnGroups(m, prior)
    ensures IdsAssigned(m, prior, NewIds(m, prior, n)) && IdsByRule(m, prior, NewIds(m, prior, n))
    ensures forall i :: 0 <= i < n ==> NewIds(m, prior, n)[i] < LengthAfter(|m.groupPages|, prior, n)
  {
    var ids, len := NewIds(m, prior, n), |m.groupPages|;
    forall i, j | 0 <= i < j < n
      ensures ids[i] != ids[j]
    {
      if i >= |prior| {
        FreshIdsGrow(len, i - |prior|, j - |prior|);
      }
    }
    forall i | 0 <= i < n
      ensures ids[i] < LengthAfter(len, prior, n)
    {
      if |prior| <= i < n - 1 {
        FreshIdsGrow(len, i - |prior|, n - 1 - |prior|);
      }
    }
  }

  lemma {:induction false} PackedViews(m: Manifest, root: nat, groups: seq<seq<nat>>, ids: seq<nat>, cache: Cache,
                                       codec: Codec, v: nat, g: nat)
    requires root in m.btrees && |ids| == |groups| && !m.positional
    requires forall i :: 0 <= i < |ids| ==> ids[i] < LengthAfter(|m.groupPages|, TreeIds(m, root), |groups|)
    ensures var m', prior := PackedManifest(m, root, groups, ids, cache, codec, v), TreeIds(m, root);
            && KeyAt(m', g) == (if g in ids then Some(PageGroup(g, v)) else if g in prior then None else KeyAt(m, g))
            && PagesAt(m', g) == (if g in ids then groups[IndexOf(ids, g)] else if g in prior then []
                 else PagesAt(m, g))
            && TableAt(m', g) ==
                 (if g in ids && m.subPagesPerFrame > 0 then GroupTable(m, cache, codec, g, groups[IndexOf(ids, g)])
                                  else TableAt(m, g))
  {
    hide GroupTable, IndexOf;
    LengthGrows(|m.groupPages|, TreeIds(m, root), |groups|);
    if g in ids {
      var i :| 0 <= i < |ids| && ids[i] == g;
    }
  }

  ghost predicate IdsReady(m: Manifest, root: nat, groups: seq<seq<nat>>, ids: seq<nat>)
    requires root in m.btrees
  {
    && |ids| == |groups| && !m.positional && IdsAssigned(m, TreeIds(m, root), ids)
    && forall i :: 0 <= i < |ids| ==> ids[i] < LengthAfter(|m.groupPages|, TreeIds(m, root), |groups|)
  }

  lemma PackedElsewhere(m: Manifest, root: nat, groups: seq<seq<nat>>, ids: seq<nat>, cache: Cache, codec: Codec,
                        v: nat)
    requires root in m.btrees && IdsReady(m, root, groups, ids)
    ensures var m', prior := PackedManifest(m, root, groups, ids, cache, codec, v), TreeIds(m, root);
            && (forall g: nat ::
                  KeyAt(m', g) == if g in ids then Some(PageGroup(g, v)) else if g in prior then None else KeyAt(m, g))
            && (forall g: nat :: g !in ids ==> PagesAt(m', g) == if g in prior then [] else PagesAt(m, g))
            && (forall g: nat :: g !in ids || m.subPagesPerFrame == 0 ==> TableAt(m', g) == TableAt(m, g))
  {
    hide PackedManifest, KeyAt, PagesAt, TableAt, IndexOf, GroupTable, LengthAfter;
    forall g: nat
      ensures var m', prior := PackedManifest(m, root, groups, ids, cache, codec, v), TreeIds(m, root);
              && KeyAt(m', g) == (if g in ids then Some(PageGroup(g, v)) else if g in prior then None else KeyAt(m, g))
              && (g !in ids ==> PagesAt(m', g) == if g in prior then [] else PagesAt(m, g))
              && (g !in ids || m.subPagesPerFrame == 0 ==> TableAt(m', g) == TableAt(m, g))
    {
      PackedViews(m, root, groups, ids, cache, codec, v, g);
    }
  }

  lemma PackedPlaces(m: Manifest, root: nat, groups: seq<seq<nat>>, ids: seq<nat>, cache: Cache, codec: Codec, v: nat)
    requires root in m.btrees && IdsReady(m, root, groups, ids)
    ensures var m' := PackedManifest(m, root, groups, ids, cache, codec, v);
            && (forall i :: 0 <= i < |ids| ==> PagesAt(m', ids[i]) == groups[i])
            && (forall i :: 0 <= i < |ids| && m.subPagesPerFrame > 0 ==>
                  TableAt(m', ids[i]) == GroupTable(m, cache, codec, ids[i], groups[i]))
  {
    hide PackedManifest, KeyAt, PagesAt, TableAt, IndexOf, GroupTable, LengthAfter;
    var m' := PackedManifest(m, root, groups, ids, cache, codec, v);
    forall i | 0 <= i < |ids|
      ensures PagesAt(m', ids[i]) == groups[i]
      ensures m.subPagesPerFrame > 0 ==> TableAt(m', ids[i]) == GroupTable(m, cache, codec, ids[i], groups[i])
    {
      assert ids[i] in ids;
      PackedViews(m, root, groups, ids, cache, codec, v, ids[i]);
      DistinctIndex(m, TreeIds(m, root), ids, i);
    }
  }

  lemma {:induction false} PackedReplaced(m: Manifest, prior: seq<nat>, ids: seq<nat>)
    ensures forall k: Key :: k in KeysOf(m, prior + ids) <==> exists g: nat ::
              (g in prior || g in ids) && KeyAt(m, g) == Some(k)
  {
    hide KeyAt;
    assert forall g: nat :: g in prior + ids <==> g in prior || g in ids;
    assert ReplacedKeys(m, prior + ids, KeysOf(m, prior + ids));
  }

  lemma PackedFrame(m: Manifest, root: nat, groups: seq<seq<nat>>, ids: seq<nat>, cache: Cache, codec: Codec, v: nat)
    requires root in m.btrees && IdsReady(m, root, groups, ids)
    ensures var m' := PackedManifest(m, root, groups, ids, cache, codec, v);
            && SameFrame(m, m') && m'.btrees == m.btrees[root := TreeEntry(m.btrees[root].name, ids)]
            && |m.groupPages| <= |m'.groupPages| == LengthAfter(|m.groupPages|, TreeIds(m, root), |groups|)
            && forall i :: 0 <= i < |ids| ==> ids[i] < |m'.groupPages|
  {
    hide KeyAt, PagesAt, TableAt, IndexOf, GroupTable, IdsAssigned;
    LengthGrows(|m.groupPages|, TreeIds(m, root), |groups|);
  }

  /** Any tree that lists its groups once can be compacted, and `PackedTree` is the result. */
  lemma StepExists(m: Manifest, root: nat, live: set<nat>, cache: Cache, codec: Codec, v: nat)
    requires root in m.btrees && m.pagesPerGroup > 0 && OwnGroups(m, TreeIds(m, root))
    ensures TreeStep(m, root, live, cache, codec, v, PackedTree(m, root, live, cache, codec, v))
  {
    hide PackedManifest, NewGroups, GroupTable, GroupBlob, KeyAt, PagesAt, TableAt, IndexOf, IdsAssigned, IdsByRule,
         LengthAfter, KeysOf,
         ReplacedKeys, NewIds;
    var prior, groups := TreeIds(m, root), NewGroups(m, root, live);
    var ids := NewIds(m, prior, |groups|);
    NewIdsAreAssigned(m, prior, |groups|);
    PackedFrame(m, root, groups, ids, cache, codec, v);
    PackedElsewhere(m, root, groups, ids, cache, codec, v);
    PackedPlaces(m, root, groups, ids, cache, codec, v);
    PackedReplaced(m, prior, ids);
  }

  lemma {:induction false} DistinctIndex(m: Manifest, prior: seq<nat>, ids: seq<nat>, i: nat)
    requires IdsAssigned(m, prior, ids) && i < |ids|
    ensures IndexOf(ids, ids[i]) == i
  {
    hide IndexOf;
    var j := IndexOf(ids, ids[i]);
  }
}
