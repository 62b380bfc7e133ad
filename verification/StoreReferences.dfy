/**
 No dangling references, whatever the pages hold: in runs of compactions, collections and crashes
 every key the stored manifest names exists. The compactions may read a stale or failing cache,
 use any encoder and leave any overrides; the trees need only own disjoint groups.
 */
module StoreReferences {
  import opened Common
  import opened StoreKeys
  import opened Tiered
  import opened Compaction
  import opened CompactTree
  import opened CompactionTheorems
  import opened Compactions
  import opened StoreRuns

  ghost predicate AnyPlan(s: Sys, runs: seq<TreeRun>, cache: Cache, codec: Codec, packed: Manifest) {
    Chain(s.shared, runs, cache, codec, s.shared.version + 1, packed) && DistinctRoots(runs)
  }

  ghost predicate StartAnyCompaction(s: Sys, s': Sys) {
    && s.phase.Idle?
    && exists runs: seq<TreeRun>, cache: Cache, codec: Codec, packed: Manifest, counter: nat ::
         AnyPlan(s, runs, cache, codec, packed) && s' == s.(phase := PlannedPhase(s, runs, packed, counter))
  }

  ghost predicate AnyStep(s: Sys, s': Sys) {
    StartAnyCompaction(s, s') || PutObject(s, s') || PutManifest(s, s') || DeleteObject(s, s') || StartGc(s, s') ||
      Stop(s, s')
  }

  ghost predicate IsAnyRun(run: seq<Sys>) {
    run != [] && forall i :: 0 < i < |run| ==> AnyStep(run[i - 1], run[i])
  }

  // ---------- the keys of one call ----------

  /** A group key of the result was there before or is one of the uploads. */
  lemma {:induction false} KeyIsOldOrUploaded(m0: Manifest, runs: seq<TreeRun>, cache: Cache, codec: Codec, v: nat,
                                              m: Manifest, g: nat)
    requires Chain(m0, runs, cache, codec, v, m) && KeyAt(m, g).Some?
    ensures KeyAt(m0, g) == KeyAt(m, g) || KeyAt(m, g).value in AllUploads(runs)
  {
    hide KeyAt, TreeStep, UploadMap;
    if runs != [] {
      var init, last := runs[..|runs| - 1], runs[|runs| - 1];
      StepKey(last, cache, codec, v, g);
      if KeyAt(last.before, g) == KeyAt(m, g) {
        KeyIsOldOrUploaded(m0, init, cache, codec, v, last.before, g);
      }
    }
  }

  lemma StepKey(last: TreeRun, cache: Cache, codec: Codec, v: nat, g: nat)
    requires TreeStep(last.before, last.root, last.live, cache, codec, v, last.r) && KeyAt(last.r.m, g).Some?
    ensures KeyAt(last.before, g) == KeyAt(last.r.m, g) || KeyAt(last.r.m, g).value in UploadMap(last.r.uploads)
  {
    hide PagesAt, KeyAt, TableAt, NewGroups, GroupTable, OwnGroups, UploadMap;
    if g in last.r.ids {
      var a :| 0 <= a < |last.r.ids| && last.r.ids[a] == g;
      UploadMapAt(last.r.uploads);
      assert last.r.uploads[a].key == PageGroup(g, v);
    }
  }

  // ---------- the invariant ----------

  /** Named objects exist; trees own disjoint groups; keys are of their kind and not from the future. */
  ghost predicate Tidy(objects: Objects, m: Manifest) {
    AllPresent(objects, m) && TreesOwnGroups(m) && WellKeyed(m) && KeysUpTo(m, m.version)
  }

  ghost predicate RefInv(s: Sys) {
    && s.shared == s.stored && Tidy(s.objects, s.stored)
    && match s.phase
       case Idle => true
       case Uploading(pending, next, retired) =>
         && Tidy(s.objects + pending, next)
         && (forall k <- pending.Keys :: !References(s.stored, k))
         && (forall k <- retired :: !References(next, k))
       case Deleting(doomed) => forall k <- doomed :: !References(s.stored, k)
  }

  lemma {:induction false} PlanIsTidy(objects: Objects, m0: Manifest, runs: seq<TreeRun>, cache: Cache, codec: Codec,
                                      v: nat, m: Manifest)
    requires Tidy(objects, m0) && v == m0.version + 1 && Chain(m0, runs, cache, codec, v, m) && Books(m0, runs, v, m)
    ensures AllPresent(objects + AllUploads(runs), m) && TreesOwnGroups(m) && WellKeyed(m) && KeysUpTo(m, v)
  {
    hide TreesOwnGroups, Chain, RestUntouched, ReplacedAreOld, KeyAt, AllUploads, Touched, AllReplaced;
    KeysStayUpTo(m0, Touched(runs), v, m);
    forall k: Key | References(m, k)
      ensures k in objects + AllUploads(runs)
    {
      if g: nat :| KeyAt(m, g) == Some(k) {
        KeyIsOldOrUploaded(m0, runs, cache, codec, v, m, g);
        assert k in AllUploads(runs) || References(m0, k);
      } else {
        assert References(m0, k);
      }
    }
  }

  lemma PublishedIsTidy(objects: Objects, m: Manifest, v: nat, counter: nat)
    requires AllPresent(objects, m) && TreesOwnGroups(m) && WellKeyed(m) && KeysUpTo(m, v)
    ensures Tidy(objects, Published(m, v, counter))
  {
    hide PagesAt, KeyAt, References;
    SameViews(m, v, counter);
    assert forall root <- m.btrees.Keys :: TreeIds(Published(m, v, counter), root) == TreeIds(m, root);
  }

  lemma StartKeepsReferences(s: Sys, s': Sys)
    requires RefInv(s) && StartAnyCompaction(s, s')
    ensures RefInv(s')
  {
    hide TreesOwnGroups, KeysUpTo, References, AllPresent, Chain, AllUploads, AllReplaced, DistinctRoots, KeysMoved,
         RestUntouched,
         ReplacedAreOld, Touched;
    var runs: seq<TreeRun>, cache: Cache, codec: Codec, packed: Manifest, counter: nat :|
      AnyPlan(s, runs, cache, codec, packed) && s' == s.(phase := PlannedPhase(s, runs, packed, counter));
    var m, v := s.stored, s.stored.version + 1;
    CallKeepsBooks(m, runs, cache, codec, v, packed);
    PlanIsTidy(s.objects, m, runs, cache, codec, v, packed);
    PublishedIsTidy(s.objects + AllUploads(runs), packed, v, counter);
    SameViews(packed, v, counter);
    forall k <- AllUploads(runs).Keys
      ensures !References(m, k)
    {
      UploadsAreUnreferenced(m, runs, cache, codec, v, packed, k);
    }
    forall k <- AllReplaced(runs)
      ensures !References(Published(packed, v, counter), k)
    {
      ReplacedAreUnreferenced(m, Touched(runs), AllReplaced(runs), v, packed, k);
    }
  }

  lemma StepKeepsReferences(s: Sys, s': Sys)
    requires RefInv(s) && AnyStep(s, s')
    ensures RefInv(s')
  {
    hide References, TreesOwnGroups, WellKeyed, KeysUpTo;
    if StartAnyCompaction(s, s') {
      StartKeepsReferences(s, s');
    } else if PutObject(s, s') {
      assert s.objects + s.phase.pending == s'.objects + s'.phase.pending;
    } else if PutManifest(s, s') {
      assert s.objects + map[] == s.objects;
    }
  }

  /**
   In every run of compactions and collections that do not overlap, with a crash possible after
   any PUT or DELETE, every key the stored manifest names exists in the store.
   */
  lemma {:induction false} EveryRunKeepsReferences(run: seq<Sys>)
    requires IsAnyRun(run) && run[0].phase.Idle? && run[0].shared == run[0].stored
    requires Tidy(run[0].objects, run[0].stored)
    ensures forall i :: 0 <= i < |run| ==> Tidy(run[i].objects, run[i].stored)
  {
    hide AnyStep, Tidy;
    for i := 1 to |run|
      invariant forall j :: 0 <= j < i ==> RefInv(run[j])
    {
      StepKeepsReferences(run[i - 1], run[i]);
    }
  }
}
