/**
 The object store under compactions and garbage collections with crashes (src/tiered/bench.rs:
 549-715, 953-989; src/tiered/storage.rs:180-211). A step is one object PUT, one manifest PUT or
 one DELETE; uploads and deletes of a batch go in any order; a crash can come between any two.
 Compactions and collections do not overlap.
 */
module StoreRuns {
  import opened Common
  import opened StoreKeys
  import opened Tiered
  import opened Compaction
  import opened CompactTree
  import opened CompactionTheorems
  import opened Compactions
  import opened CallMeaning
  import opened Gc

  datatype Phase =
    | Idle
    | Uploading(pending: Objects, next: Manifest, retired: set<Key>)
    | Deleting(doomed: set<Key>)

  /** The backend's objects and manifest, and the manifest the process holds in memory. */
  datatype Sys = Sys(objects: Objects, stored: Manifest, shared: Manifest, phase: Phase)

  // ---------- steps ----------

  /** A compaction of eligible trees, worked out in memory; its walks find the live pages of those trees. */
  ghost predicate Plans(s: Sys, codec: Codec, alive: set<nat>, runs: seq<TreeRun>, cache: Cache, packed: Manifest)
    requires Materializable(s.objects, s.shared, codec)
  {
    && WalksCover(runs, alive)
    && Chain(s.shared, runs, cache, codec, s.shared.version + 1, packed)
    && Eligible(s.objects, s.shared, runs, cache, codec)
  }

  ghost function PlannedPhase(s: Sys, runs: seq<TreeRun>, packed: Manifest, counter: nat): Phase {
    Uploading(AllUploads(runs), Published(packed, s.shared.version + 1, counter), AllReplaced(runs))
  }

  ghost predicate StartCompaction(s: Sys, s': Sys, codec: Codec, alive: set<nat>) {
    && s.phase.Idle? && Materializable(s.objects, s.shared, codec)
    && exists runs: seq<TreeRun>, cache: Cache, packed: Manifest, counter: nat ::
         Plans(s, codec, alive, runs, cache, packed) && s' == s.(phase := PlannedPhase(s, runs, packed, counter))
  }

  ghost predicate PutObject(s: Sys, s': Sys) {
    && s.phase.Uploading?
    && exists k <- s.phase.pending.Keys ::
         s' == s.(objects := s.objects[k := s.phase.pending[k]], phase := s.phase.(pending := s.phase.pending - {k}))
  }

  /** `put_manifest`: refused if the stored version is not older. Deletes follow only when gc is enabled. */
  ghost predicate PutManifest(s: Sys, s': Sys) {
    && s.phase.Uploading? && s.phase.pending == map[]
    && if s.stored.version >= s.phase.next.version then s' == s.(phase := Idle)
       else
         || s' == s.(stored := s.phase.next, shared := s.phase.next, phase := Deleting(s.phase.retired))
         || s' == s.(stored := s.phase.next, shared := s.phase.next, phase := Idle)
  }

  ghost predicate DeleteObject(s: Sys, s': Sys) {
    && s.phase.Deleting?
    && exists k <- s.phase.doomed ::
         s' == s.(objects := s.objects - {k}, phase := Deleting(s.phase.doomed - {k}))
  }

  ghost predicate StartGc(s: Sys, s': Sys) {
    s.phase.Idle? && s' == s.(phase := Deleting(Orphans(s.objects, s.stored)))
  }

  /** The call returns, early or late, or the process dies and reopens from the stored manifest. */
  ghost predicate Stop(s: Sys, s': Sys) {
    s' == s.(shared := s.stored, phase := Idle)
  }

  ghost predicate Step(s: Sys, s': Sys, codec: Codec, alive: set<nat>) {
    StartCompaction(s, s', codec, alive) || PutObject(s, s') || PutManifest(s, s') || DeleteObject(s, s') ||
      StartGc(s, s') || Stop(s, s')
  }

  ghost predicate IsRun(run: seq<Sys>, codec: Codec, alive: set<nat>) {
    run != [] && forall i :: 0 < i < |run| ==> Step(run[i - 1], run[i], codec, alive)
  }

  // ---------- invariant ----------

  /** A manifest that can be compacted and materialized from these objects. */
  ghost predicate Healthy(objects: Objects, m: Manifest, codec: Codec) {
    && Sane(objects, m, codec) && AllPresent(objects, m) && TreesOwnGroups(m) && KeysUpTo(m, m.version)
  }

  /** Healthy, of the same page size, and listing only pages of `m0`, with the bytes they had. */
  ghost predicate Faithful(objects0: Objects, m0: Manifest, objects: Objects, m: Manifest, codec: Codec)
    requires Healthy(objects0, m0, codec)
  {
    && Healthy(objects, m, codec) && m.pageSize == m0.pageSize && m.pageCount == m0.pageCount
    && SameMeaning(objects0, m0, objects, m, codec)
  }

  /** Live pages the first manifest listed are still listed. */
  ghost predicate KeepsAlive(m0: Manifest, alive: set<nat>, m: Manifest) {
    forall p <- alive :: Listed(m0, p) ==> Listed(m, p)
  }

  ghost predicate Inv(objects0: Objects, m0: Manifest, s: Sys, codec: Codec, alive: set<nat>)
    requires Healthy(objects0, m0, codec)
  {
    && s.shared == s.stored
    && Faithful(objects0, m0, s.objects, s.stored, codec) && KeepsAlive(m0, alive, s.stored)
    && match s.phase
       case Idle => true
       case Uploading(pending, next, retired) =>
         && Faithful(objects0, m0, s.objects + pending, next, codec) && KeepsAlive(m0, alive, next)
         && (forall k <- pending.Keys :: !References(s.stored, k))
         && (forall k <- retired :: !References(next, k))
       case Deleting(doomed) => forall k <- doomed :: !References(s.stored, k)
  }

  // ---------- changing objects the manifest does not name ----------

  lemma FaithfulStays(objects0: Objects, m0: Manifest, objects: Objects, objects': Objects, m: Manifest, codec: Codec)
    requires Healthy(objects0, m0, codec) && Faithful(objects0, m0, objects, m, codec)
    requires SameObjects(objects, objects', m)
    ensures Faithful(objects0, m0, objects', m, codec)
  {
    hide PageContent, Materializable, UniquePages, WellKeyed, TreesOwnGroups, KeysUpTo, References, Listed;
    ContentDependsOnReferences(objects, objects', m, codec);
    forall k: Key | References(m, k)
      ensures k in objects'
    {
      assert ObjectAt(objects', k) == ObjectAt(objects, k);
    }
  }

  // ---------- what a compaction plans ----------

  /** The plan names only its own uploads and what was already there. */
  lemma {:induction false} PlanIsPresent(objects: Objects, m0: Manifest, runs: seq<TreeRun>, codec: Codec, v: nat,
                                         m: Manifest)
    requires Healthy(objects, m0, codec) && ChainInv(objects, m0, runs, codec, v, m)
    ensures AllPresent(objects + AllUploads(runs), m)
  {
    hide PageContent, UniquePages, WellKeyed, TreesOwnGroups, KeysMoved, RestUntouched, ReplacedAreOld, AllUploads,
         SameMeaning;
    var after := objects + AllUploads(runs);
    forall k: Key | References(m, k)
      ensures k in after
    {
      if g: nat :| KeyAt(m, g) == Some(k) {
        assert GroupOk(after, m, codec, g);
        assert BaseBytes(after, m, codec, g).Some?;
      } else {
        assert References(m0, k);
      }
    }
  }

  /** No replaced key is still named, so deleting them is safe. */
  lemma ReplacedAreUnreferenced(m0: Manifest, touched: set<nat>, replaced: set<Key>, v: nat, m: Manifest, k: Key)
    requires WellKeyed(m0) && KeysUpTo(m0, m0.version) && m0.version < v
    requires SameFrame(m0, m) && KeysMoved(m0, touched, v, m) && ReplacedAreOld(m0, touched, replaced) && k in replaced
    ensures !References(m, k)
  {
    var g :| g in touched && KeyAt(m0, g) == Some(k);
    assert k.PageGroup? && k.gid == g && k.version < v;
  }

  /** Uploads go under keys of the next version, which the current manifest cannot name. */
  lemma {:induction false} UploadsAreUnreferenced(m0: Manifest, runs: seq<TreeRun>, cache: Cache, codec: Codec,
                                                  v: nat, m: Manifest, k: Key)
    requires WellKeyed(m0) && KeysUpTo(m0, m0.version) && m0.version < v
    requires Chain(m0, runs, cache, codec, v, m) && k in AllUploads(runs)
    ensures !References(m0, k)
  {
    hide Chain, AllUploads, KeyAt;
    UploadKeysAreNew(m0, runs, cache, codec, v, m, k);
  }

  lemma {:induction false} UploadKeysAreNew(m0: Manifest, runs: seq<TreeRun>, cache: Cache, codec: Codec, v: nat,
                                            m: Manifest, k: Key)
    requires Chain(m0, runs, cache, codec, v, m) && k in AllUploads(runs)
    ensures k.PageGroup? && k.version == v
  {
    hide PagesAt, KeyAt, TableAt, NewGroups, GroupTable, OwnGroups, UploadMap;
    var init, last := runs[..|runs| - 1], runs[|runs| - 1];
    if k in AllUploads(init) {
      UploadKeysAreNew(m0, init, cache, codec, v, last.before, k);
    } else {
      UploadMapAt(last.r.uploads);
    }
  }

  /** Version and change counter have no part in what a group contributes. */
  lemma PublishedGroup(objects: Objects, m: Manifest, v: nat, counter: nat, codec: Codec, g: nat)
    requires GroupOk(objects, m, codec, g)
    ensures GroupOk(objects, Published(m, v, counter), codec, g)
    ensures KeyAt(m, g).Some? ==> forall i :: 0 <= i < |PagesAt(m, g)| ==>
              SlotWrite(objects, Published(m, v, counter), codec, g, i) == SlotWrite(objects, m, codec, g, i)
  {
    PublishedViews(objects, m, v, counter, codec, g);
    hide GroupOk, SlotWrite, SameInputs, PagesAt, KeyAt;
    SameContribution(objects, m, objects, Published(m, v, counter), codec, g);
  }

  lemma PublishedViews(objects: Objects, m: Manifest, v: nat, counter: nat, codec: Codec, g: nat)
    ensures SameInputs(objects, m, objects, Published(m, v, counter), codec, g)
    ensures PagesAt(Published(m, v, counter), g) == PagesAt(m, g) && KeyAt(Published(m, v, counter), g) == KeyAt(m, g)
  {
    hide ObjectAt;
  }

  lemma PublishedContent(objects: Objects, m: Manifest, v: nat, counter: nat, codec: Codec)
    requires Materializable(objects, m, codec) && UniquePages(m)
    ensures Materializable(objects, Published(m, v, counter), codec) && UniquePages(Published(m, v, counter))
    ensures forall p: nat :: Listed(Published(m, v, counter), p) ==>
              Listed(m, p) && PageContent(objects, Published(m, v, counter), codec, p) ==
                PageContent(objects, m, codec, p)
  {
    hide PagesAt, GroupOk, SlotWrite, PageContent;
    var m' := Published(m, v, counter);
    SameViews(m, v, counter);
    forall g: nat
      ensures GroupOk(objects, m', codec, g)
    {
      PublishedGroup(objects, m, v, counter, codec, g);
    }
    assert forall p: nat, g: nat, i: nat :: Located(m', p, g, i) <==> Located(m, p, g, i);
    forall p: nat | Listed(m', p)
      ensures Listed(m, p) && PageContent(objects, m', codec, p) == PageContent(objects, m, codec, p)
    {
      var g: nat, i: nat :| Located(m', p, g, i);
      assert Located(m, p, g, i);
      ContentAt(objects, m', codec, p, g, i);
      ContentAt(objects, m, codec, p, g, i);
      PublishedGroup(objects, m, v, counter, codec, g);
    }
  }

  lemma SameViews(m: Manifest, v: nat, counter: nat)
    ensures var m' := Published(m, v, counter);
            && (forall g: nat :: KeyAt(m', g) == KeyAt(m, g) && PagesAt(m', g) == PagesAt(m, g))
            && (forall k: Key :: References(m', k) <==> References(m, k))
  {
    var m' := Published(m, v, counter);
    assert forall g: nat :: KeyAt(m', g) == KeyAt(m, g);
  }

  lemma PublishedListing(m: Manifest, v: nat, counter: nat, p: nat)
    requires Listed(m, p)
    ensures Listed(Published(m, v, counter), p)
  {
    hide PagesAt, KeyAt;
    SameViews(m, v, counter);
    var g: nat, i: nat :| Located(m, p, g, i);
    assert Located(Published(m, v, counter), p, g, i);
  }

  lemma PublishedIsFaithful(objects0: Objects, m0: Manifest, objects: Objects, m: Manifest, v: nat, counter: nat,
                            codec: Codec)
    requires Healthy(objects0, m0, codec) && Sane(objects, m, codec) && AllPresent(objects, m) && TreesOwnGroups(m)
    requires KeysUpTo(m, v)
    requires m.pageSize == m0.pageSize && m.pageCount == m0.pageCount && SameMeaning(objects0, m0, objects, m, codec)
    ensures Faithful(objects0, m0, objects, Published(m, v, counter), codec)
    ensures forall k: Key :: References(Published(m, v, counter), k) <==> References(m, k)
  {
    hide PagesAt, PageContent, References, Materializable, UniquePages, Listed, KeyAt;
    SameViews(m, v, counter);
    PublishedContent(objects, m, v, counter, codec);
    assert forall root <- m.btrees.Keys :: TreeIds(Published(m, v, counter), root) == TreeIds(m, root);
  }

  // ---------- every step keeps the invariant ----------

  lemma KeysStayUpTo(m0: Manifest, touched: set<nat>, v: nat, m: Manifest)
    requires KeysUpTo(m0, m0.version) && m0.version < v && KeysMoved(m0, touched, v, m)
    ensures KeysUpTo(m, v)
  {
    hide KeyAt;
    forall g: nat | KeyAt(m, g).Some?
      ensures KeyAt(m, g).value.PageGroup? && KeyAt(m, g).value.version <= v
    {
      if g !in touched {
        assert KeyAt(m, g) == KeyAt(m0, g);
      }
    }
  }

  lemma SameMeaningTrans(objects0: Objects, m0: Manifest, objects1: Objects, m1: Manifest, objects2: Objects,
                         m2: Manifest, codec: Codec)
    requires Materializable(objects0, m0, codec) && Materializable(objects1, m1, codec)
    requires Materializable(objects2, m2, codec)
    requires SameMeaning(objects0, m0, objects1, m1, codec) && SameMeaning(objects1, m1, objects2, m2, codec)
    ensures SameMeaning(objects0, m0, objects2, m2, codec)
  {
    hide PageContent, Materializable, Listed;
  }

  lemma StartCompactionKeeps(objects0: Objects, m0: Manifest, s: Sys, s': Sys, codec: Codec, alive: set<nat>)
    requires Healthy(objects0, m0, codec) && Lawful(codec, m0.pageSize) && Inv(objects0, m0, s, codec, alive)
    requires StartCompaction(s, s', codec, alive)
    ensures Inv(objects0, m0, s', codec, alive)
  {
    hide PageContent, Materializable, Listed, UniquePages, WellKeyed, TreesOwnGroups, KeysUpTo, References,
         AllPresent, Chain, Eligible,
         AllUploads, AllReplaced, Lawful, KeysMoved, RestUntouched, ReplacedAreOld, WalksCover;
    var runs: seq<TreeRun>, cache: Cache, packed: Manifest, counter: nat :|
      Plans(s, codec, alive, runs, cache, packed) && s' == s.(phase := PlannedPhase(s, runs, packed, counter));
    var m, v := s.stored, s.stored.version + 1;
    CallKeepsMeaning(s.objects, m, runs, cache, codec, v, packed);
    var after := s.objects + AllUploads(runs);
    PlanIsPresent(s.objects, m, runs, codec, v, packed);
    KeysStayUpTo(m, Touched(runs), v, packed);
    SameMeaningTrans(objects0, m0, s.objects, m, after, packed, codec);
    PublishedIsFaithful(objects0, m0, after, packed, v, counter, codec);
    forall p <- alive | Listed(m0, p)
      ensures Listed(Published(packed, v, counter), p)
    {
      CallKeepsAlive(m, runs, cache, codec, v, packed, alive, p);
      PublishedListing(packed, v, counter, p);
    }
    forall k <- AllUploads(runs).Keys
      ensures !References(m, k)
    {
      UploadsAreUnreferenced(m, runs, cache, codec, v, packed, k);
    }
    forall k <- AllReplaced(runs)
      ensures !References(Published(packed, v, counter), k)
    {
      ReplacedAreUnreferenced(m, Touched(runs), AllReplaced(runs), v, packed, k);
    }
  }

  lemma PutObjectKeeps(objects0: Objects, m0: Manifest, s: Sys, s': Sys, codec: Codec, alive: set<nat>)
    requires Healthy(objects0, m0, codec) && Inv(objects0, m0, s, codec, alive) && PutObject(s, s')
    ensures Inv(objects0, m0, s', codec, alive)
  {
    hide Faithful, References;
    assert s.objects + s.phase.pending == s'.objects + s'.phase.pending;
    FaithfulStays(objects0, m0, s.objects, s'.objects, s.stored, codec);
  }

  lemma DeleteKeeps(objects0: Objects, m0: Manifest, s: Sys, s': Sys, codec: Codec, alive: set<nat>)
    requires Healthy(objects0, m0, codec) && Inv(objects0, m0, s, codec, alive) && DeleteObject(s, s')
    ensures Inv(objects0, m0, s', codec, alive)
  {
    hide Faithful, References;
    FaithfulStays(objects0, m0, s.objects, s'.objects, s.stored, codec);
  }

  lemma StepKeepsInv(objects0: Objects, m0: Manifest, s: Sys, s': Sys, codec: Codec, alive: set<nat>)
    requires Healthy(objects0, m0, codec) && Lawful(codec, m0.pageSize) && Inv(objects0, m0, s, codec, alive)
    requires Step(s, s', codec, alive)
    ensures Inv(objects0, m0, s', codec, alive)
  {
    hide Faithful, References, Lawful, Healthy;
    if StartCompaction(s, s', codec, alive) {
      StartCompactionKeeps(objects0, m0, s, s', codec, alive);
    } else if PutObject(s, s') {
      PutObjectKeeps(objects0, m0, s, s', codec, alive);
    } else if DeleteObject(s, s') {
      DeleteKeeps(objects0, m0, s, s', codec, alive);
    } else if PutManifest(s, s') {
      assert s.objects + map[] == s.objects;
    }
  }

  // ---------- the theorems ----------

  /**
   In every run of compactions and collections, with a crash possible after any PUT or DELETE:
   every key the stored manifest names exists, the stored manifest materializes, every page it
   lists has the bytes it had at the start, and it still lists the pages of `alive`, for any set
   of pages that no compaction's walks missed.
   */
  lemma {:induction false} EveryRunIsCrashSafe(run: seq<Sys>, codec: Codec, alive: set<nat>)
    requires IsRun(run, codec, alive) && run[0].phase.Idle? && run[0].shared == run[0].stored
    requires Healthy(run[0].objects, run[0].stored, codec) && Lawful(codec, run[0].stored.pageSize)
    ensures forall i :: 0 <= i < |run| ==>
              && AllPresent(run[i].objects, run[i].stored)
              && Materializable(run[i].objects, run[i].stored, codec)
              && SameMeaning(run[0].objects, run[0].stored, run[i].objects, run[i].stored, codec)
              && KeepsAlive(run[0].stored, alive, run[i].stored)
  {
    hide Healthy, Lawful, SameMeaning, Step, KeepsAlive;
    var objects0, m0 := run[0].objects, run[0].stored;
    StartsInInv(run[0], codec, alive);
    for i := 1 to |run|
      invariant forall j :: 0 <= j < i ==> Inv(objects0, m0, run[j], codec, alive)
    {
      StepKeepsInv(objects0, m0, run[i - 1], run[i], codec, alive);
    }
    forall i | 0 <= i < |run|
      ensures AllPresent(run[i].objects, run[i].stored)
      ensures Materializable(run[i].objects, run[i].stored, codec)
    {
      InvSays(objects0, m0, run[i], codec, alive);
    }
  }

  lemma StartsInInv(s: Sys, codec: Codec, alive: set<nat>)
    requires s.phase.Idle? && s.shared == s.stored && Healthy(s.objects, s.stored, codec)
    ensures Inv(s.objects, s.stored, s, codec, alive)
  {
  }

  lemma InvSays(objects0: Objects, m0: Manifest, s: Sys, codec: Codec, alive: set<nat>)
    requires Healthy(objects0, m0, codec) && Inv(objects0, m0, s, codec, alive)
    ensures AllPresent(s.objects, s.stored) && Materializable(s.objects, s.stored, codec)
    ensures SameMeaning(objects0, m0, s.objects, s.stored, codec) && KeepsAlive(m0, alive, s.stored)
  {
  }
}
