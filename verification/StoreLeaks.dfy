/**
 What a finished compaction leaves in the store (src/tiered/bench.rs:549-715): the keys it deletes
 are exactly those the manifest dropped, so it neither deletes what is named nor leaves garbage.
 */
module StoreLeaks {
  import opened Common
  import opened StoreKeys
  import opened Tiered
  import opened CompactTree
  import opened Compaction
  import opened CompactionTheorems
  import opened Compactions
  import opened Gc
  import opened StoreRuns
  import opened StoreReferences

  /** Group keys of one manifest that the other has no more. */
  ghost predicate Dropped(m0: Manifest, m: Manifest, k: Key) {
    (exists g: nat :: KeyAt(m0, g) == Some(k)) && forall g: nat :: KeyAt(m, g) != Some(k)
  }

  lemma ReplacedAreDropped(m0: Manifest, touched: set<nat>, replaced: set<Key>, v: nat, m: Manifest, k: Key)
    requires WellKeyed(m0) && KeysUpTo(m0, m0.version) && m0.version < v
    requires KeysMoved(m0, touched, v, m) && ReplacedAreOld(m0, touched, replaced)
    ensures k in replaced <==> Dropped(m0, m, k)
  {
    hide KeyAt;
    if k in replaced {
      var g :| g in touched && KeyAt(m0, g) == Some(k);
      forall h: nat
        ensures KeyAt(m, h) != Some(k)
      {
        assert h !in touched ==> KeyAt(m, h) == KeyAt(m0, h);
      }
    }
    if Dropped(m0, m, k) {
      var g: nat :| KeyAt(m0, g) == Some(k);
      assert g in touched;
    }
  }

  /** Every object a call uploads is named by the manifest it ends with. */
  lemma {:induction false} UploadsAreNamed(m0: Manifest, runs: seq<TreeRun>, cache: Cache, codec: Codec, v: nat,
                                           m: Manifest, k: Key)
    requires Chain(m0, runs, cache, codec, v, m) && DistinctRoots(runs) && TreesOwnGroups(m0)
    requires KeysUpTo(m0, m0.version) && m0.version < v && k in AllUploads(runs)
    ensures exists g: nat :: KeyAt(m, g) == Some(k)
  {
    hide KeyAt, TreesOwnGroups, KeysUpTo, Books, DistinctRoots;
    var init, last := runs[..|runs| - 1], runs[|runs| - 1];
    if k in UploadMap(last.r.uploads) {
      LastUploadIsNamed(cache, codec, v, last, k);
    } else {
      DistinctInit(runs);
      UploadsAreNamed(m0, init, cache, codec, v, last.before, k);
      UploadKeysAreNew(m0, init, cache, codec, v, last.before, k);
      CallKeepsBooks(m0, init, cache, codec, v, last.before);
      var g: nat :| KeyAt(last.before, g) == Some(k);
      UploadedIsTouched(m0, init, v, last.before, g, k);
      TouchedStays(m0, init, cache, codec, v, last, g);
    }
  }

  lemma DistinctInit(runs: seq<TreeRun>)
    requires runs != [] && DistinctRoots(runs)
    ensures DistinctRoots(runs[..|runs| - 1]) && runs[|runs| - 1].root !in Roots(runs[..|runs| - 1])
  {
    var init, last := runs[..|runs| - 1], runs[|runs| - 1];
    forall i, j | 0 <= i < j < |init|
      ensures init[i].root != init[j].root
    {
      assert init[i] == runs[i] && init[j] == runs[j];
    }
    forall x <- init
      ensures x.root != last.root
    {
      var i :| 0 <= i < |init| && init[i] == x;
      assert runs[i] == x;
    }
  }

  lemma LastUploadIsNamed(cache: Cache, codec: Codec, v: nat, last: TreeRun, k: Key)
    requires TreeStep(last.before, last.root, last.live, cache, codec, v, last.r) && k in UploadMap(last.r.uploads)
    ensures exists g: nat :: KeyAt(last.r.m, g) == Some(k)
  {
    hide PagesAt, KeyAt, TableAt, NewGroups, GroupTable, OwnGroups, UploadMap;
    UploadMapAt(last.r.uploads);
    var i :| 0 <= i < |last.r.uploads| && last.r.uploads[i].key == k;
    assert last.r.ids[i] in last.r.ids;
    assert KeyAt(last.r.m, last.r.ids[i]) == Some(k);
  }

  lemma UploadedIsTouched(m0: Manifest, runs: seq<TreeRun>, v: nat, m: Manifest, g: nat, k: Key)
    requires Books(m0, runs, v, m) && KeysUpTo(m0, m0.version) && m0.version < v
    requires KeyAt(m, g) == Some(k) && k.PageGroup? && k.version == v
    ensures g in Touched(runs)
  {
    hide KeyAt, TreesOwnGroups, Touched;
  }

  /** The next tree leaves the keys of earlier trees alone. */
  lemma TouchedStays(m0: Manifest, init: seq<TreeRun>, cache: Cache, codec: Codec, v: nat, last: TreeRun, g: nat)
    requires Books(m0, init, v, last.before) && last.root !in Roots(init) && g in Touched(init)
    requires TreeStep(last.before, last.root, last.live, cache, codec, v, last.r)
    ensures KeyAt(last.r.m, g) == KeyAt(last.before, g)
  {
    hide PagesAt, KeyAt, TableAt, NewGroups, GroupTable, OwnGroups, UploadMap, TreesOwnGroups, Touched, Roots,
         UploadsFor, KeysMoved, RestUntouched, ReplacedAreOld;
    if g in last.r.ids || g in TreeIds(last.before, last.root) {
      IdsAreUntouched(m0, Roots(init), Touched(init), v, last.before, cache, codec, last, g);
    }
  }

  /**
   A call that runs to its end, deletes included: what it deletes is exactly what the manifest
   dropped, and a store without garbage has none afterwards.
   */
  lemma {:induction false} FinishedCallLeavesNoGarbage(objects: Objects, m0: Manifest, runs: seq<TreeRun>,
                                                       cache: Cache, codec: Codec, packed: Manifest, counter: nat)
    requires Tidy(objects, m0) && DistinctRoots(runs) && Chain(m0, runs, cache, codec, m0.version + 1, packed)
    ensures var m := packed.(version := m0.version + 1, changeCounter := counter);
            var after := objects + AllUploads(runs) - AllReplaced(runs);
            && (forall k: Key :: k in AllReplaced(runs) <==> Dropped(m0, m, k))
            && AllPresent(after, m)
            && (Orphans(objects, m0) == {} ==> Orphans(after, m) == {})
  {
    hide KeyAt, TreesOwnGroups, KeysMoved, RestUntouched, ReplacedAreOld, Touched, AllReplaced, AllUploads, Chain;
    var v := m0.version + 1;
    CallKeepsBooks(m0, runs, cache, codec, v, packed);
    PlanIsTidy(objects, m0, runs, cache, codec, v, packed);
    var m := packed.(version := v, changeCounter := counter);
    SameKeys(packed, v, counter);
    forall k: Key
      ensures k in AllReplaced(runs) <==> Dropped(m0, m, k)
      ensures k in AllReplaced(runs) ==> !References(m, k)
      ensures k in AllUploads(runs) ==> References(m, k)
      ensures References(m0, k) && k !in AllReplaced(runs) ==> References(m, k)
    {
      ReplacedAreDropped(m0, Touched(runs), AllReplaced(runs), v, packed, k);
      if k in AllReplaced(runs) {
        ReplacedAreUnreferenced(m0, Touched(runs), AllReplaced(runs), v, packed, k);
      }
      if k in AllUploads(runs) {
        UploadsAreNamed(m0, runs, cache, codec, v, packed, k);
      }
      NamedStays(m0, packed, k);
    }
    hide References, Dropped;
  }

  lemma SameKeys(m: Manifest, v: nat, counter: nat)
    ensures var m' := m.(version := v, changeCounter := counter);
            && (forall g: nat :: KeyAt(m', g) == KeyAt(m, g))
            && (forall k: Key :: References(m', k) <==> References(m, k))
  {
    var m' := m.(version := v, changeCounter := counter);
    assert forall g: nat :: KeyAt(m', g) == KeyAt(m, g);
    hide KeyAt;
  }

  /** What was named is named still, unless it was a group key that was dropped. */
  lemma NamedStays(m0: Manifest, m: Manifest, k: Key)
    requires SameFrame(m0, m)
    ensures References(m0, k) && !Dropped(m0, m, k) ==> References(m, k)
  {
    hide KeyAt;
  }
}
