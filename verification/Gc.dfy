/** Full garbage collection (src/tiered/bench.rs:953-989). */
module Gc {
  import opened Common
  import opened StoreKeys
  import opened Tiered

  /** `Manifest::empty`, used when the backend has no manifest. */
  const EMPTY_MANIFEST := Manifest(0, 0, 0, 0, 0, [], map[], map[], [], 0, [], true, [], map[])

  function StoredOrEmpty(m: Option<Manifest>): Manifest {
    if m.Some? then m.value else EMPTY_MANIFEST
  }

  /** Every object but the manifest that the manifest does not name. */
  ghost function Orphans(objects: Objects, m: Manifest): set<Key> {
    set k <- objects.Keys | k != ManifestKey && !References(m, k)
  }

  /** Some field of the manifest holds this key. */
  ghost predicate Holds(m: Manifest, k: Key) {
    || (exists g :: 0 <= g < |m.pageGroupKeys| && m.pageGroupKeys[g] == Some(k))
    || (exists c <- m.interiorChunkKeys.Keys :: m.interiorChunkKeys[c] == k)
    || (exists c <- m.indexChunkKeys.Keys :: m.indexChunkKeys[c] == k)
    || (exists g, f :: 0 <= g < |m.subframeOverrides| && f in m.subframeOverrides[g] && m.subframeOverrides[g][f] == k)
  }

  lemma HoldsIs(m: Manifest, k: Key)
    ensures Holds(m, k) <==> References(m, k)
  {
    if g :| 0 <= g < |m.pageGroupKeys| && m.pageGroupKeys[g] == Some(k) {
      assert KeyAt(m, g) == Some(k);
    }
    if g, f :| 0 <= g < |m.subframeOverrides| && f in m.subframeOverrides[g] && m.subframeOverrides[g][f] == k {
      assert k in m.subframeOverrides[g].Values;
    }
  }

  /** The live set, src/tiered/bench.rs:958-975. */
  method LiveKeys(m: Manifest) returns (live: set<Key>)
    ensures forall k: Key :: k in live <==> k == ManifestKey || Holds(m, k)
  {
    live := {ManifestKey};
    for g: nat := 0 to |m.pageGroupKeys|
      invariant forall k: Key :: k in live <==> k == ManifestKey || exists h: nat :: h < g && KeyAt(m, h) == Some(k)
    {
      assert KeyAt(m, g) == m.pageGroupKeys[g];
      if m.pageGroupKeys[g].Some? {
        live := live + {m.pageGroupKeys[g].value};
      }
    }
    live := live + m.interiorChunkKeys.Values;
    live := live + m.indexChunkKeys.Values;
    ghost var named := live;
    for g: nat := 0 to |m.subframeOverrides|
      invariant forall k: Key :: k in live <==> k in named || exists h: nat ::
                  h < g && k in m.subframeOverrides[h].Values
    {
      live := live + m.subframeOverrides[g].Values;
    }
    forall k: Key
      ensures k in live <==> k == ManifestKey || Holds(m, k)
    {
      HoldsIs(m, k);
    }
  }

  class Backend {
    var objects: Objects
    var manifest: Option<Manifest>

    method Collect() returns (count: nat)
      modifies this`objects
      ensures objects == old(objects) - Orphans(old(objects), StoredOrEmpty(manifest))
      ensures count == |Orphans(old(objects), StoredOrEmpty(manifest))| == |old(objects)| - |objects|
      ensures forall k: Key :: k in objects <==>
                k in old(objects) && (k == ManifestKey || (manifest.Some? && Holds(manifest.value, k)))
    {
      hide Holds, References;
      var m := StoredOrEmpty(manifest);
      var live := LiveKeys(m);
      var orphans := set k <- objects.Keys | k !in live;
      forall k: Key
        ensures Holds(m, k) <==> References(m, k)
        ensures manifest.None? ==> !Holds(m, k)
      {
        HoldsIs(m, k);
        EmptyHoldsNothing(k);
      }
      assert orphans == Orphans(objects, m);
      count := |orphans|;
      KeysCounted(objects, orphans);
      if count > 0 {
        objects := objects - orphans;
      }
      assert objects == old(objects) - orphans;
    }
  }

  lemma EmptyHoldsNothing(k: Key)
    ensures !Holds(EMPTY_MANIFEST, k)
  {
  }

  lemma KeysCounted(objects: Objects, gone: set<Key>)
    requires gone <= objects.Keys
    ensures |objects - gone| == |objects| - |gone|
  {
    assert (objects - gone).Keys == objects.Keys - gone;
    assert |objects| == |objects.Keys| && |objects - gone| == |(objects - gone).Keys|;
  }

  /** What the manifest materializes to is the same before and after. */
  lemma CollectionKeepsMeaning(objects: Objects, m: Manifest, codec: Codec)
    ensures var after := objects - Orphans(objects, m);
            && (Materializable(objects, m, codec) <==> Materializable(after, m, codec))
            && (Materializable(objects, m, codec) ==>
                  forall p: nat :: PageContent(after, m, codec, p) == PageContent(objects, m, codec, p))
            && (AllPresent(objects, m) ==> AllPresent(after, m))
  {
    var after := objects - Orphans(objects, m);
    assert SameObjects(objects, after, m);
    ContentDependsOnReferences(objects, after, m, codec);
  }

  /** Exactly the unnamed objects go, so a second collection finds nothing. */
  lemma CollectionIsIdempotent(objects: Objects, m: Manifest)
    ensures Orphans(objects - Orphans(objects, m), m) == {}
    ensures forall k <- objects.Keys :: k in objects - Orphans(objects, m) <==> k == ManifestKey || References(m, k)
  {
  }
}
