/**
 Which pages a whole `compact` call keeps when its trees may share groups (src/tiered/bench.rs:556-698,
 src/tiered/import.rs:104-175), said of the manifest and the walks before the call.
 */
module SharedPages {
  import opened Tiered
  import opened Compaction
  import opened CompactTree
  import opened CompactionTheorems
  import opened Compactions
  import opened SharedGroups

  /** Tree `n` is the first of the call to own group `g`. */
  ghost predicate FirstOwner(m: Manifest, trees: seq<Candidate>, n: nat, g: nat) {
    n < |trees| && g in IdsOf(m, trees[n]) && !OwnedEarlier(m, trees, n, g)
  }

  /** Tree `n` will pack page `p` into its new group `a`, under an id that no later tree owns. */
  ghost predicate PackedForGood(m: Manifest, trees: seq<Candidate>, n: nat, p: nat, a: nat)
    requires n < |trees| && m.pagesPerGroup > 0
  {
    var ids := IdsOf(m, trees[n]);
    && a < GroupCount(m, trees, n) && p in Foreseen(m, trees, n)[a]
    && (a < |ids| ==> forall j :: n < j < |trees| ==> ids[a] !in IdsOf(m, trees[j]))
  }

  lemma KeyedNext(x: TreeRun, cache: Cache, codec: Codec, v: nat)
    requires TreeStep(x.before, x.root, x.live, cache, codec, v, x.r) && PagesAreKeyed(x.before)
    ensures PagesAreKeyed(x.r.m)
  {
    hide NewGroups, KeyAt, PagesAt, TableAt, OwnGroups, IdsByRule, UploadsFor, SameFrame, IdsAssigned;
  }

  lemma UniqueNext(x: TreeRun, cache: Cache, codec: Codec, v: nat)
    requires TreeStep(x.before, x.root, x.live, cache, codec, v, x.r) && UniquePages(x.before)
    requires PagesAreKeyed(x.before)
    ensures UniquePages(x.r.m)
  {
    hide TreeStep, Located, PagesAreKeyed;
    forall p: nat, g: nat, i: nat, h: nat, j: nat | Located(x.r.m, p, g, i) && Located(x.r.m, p, h, j)
      ensures g == h && i == j
    {
      UniqueAfter(x.before, x.root, x.live, cache, codec, v, x.r, p, g, i, h, j);
    }
  }

  lemma {:induction false} SoundAt(m0: Manifest, trees: seq<Candidate>, runs: seq<TreeRun>, cache: Cache,
                                   codec: Codec, v: nat, n: nat)
    requires Calls(m0, trees, runs, cache, codec, v) && n <= |runs| && UniquePages(m0) && PagesAreKeyed(m0)
    ensures UniquePages(ManifestAt(m0, runs, n)) && PagesAreKeyed(ManifestAt(m0, runs, n))
  {
    hide TreeStep, UniquePages, PagesAreKeyed;
    if n > 0 {
      SoundAt(m0, trees, runs, cache, codec, v, n - 1);
      assert RunAt(m0, runs, cache, codec, v, n - 1);
      KeyedNext(runs[n - 1], cache, codec, v);
      UniqueNext(runs[n - 1], cache, codec, v);
    }
  }

  /** A page stays in a group that no tree in between owns. */
  lemma {:induction false} StaysAt(m0: Manifest, trees: seq<Candidate>, runs: seq<TreeRun>, cache: Cache,
                                   codec: Codec, v: nat,
                                   lo: nat, hi: nat, p: nat, h: nat, i: nat)
    requires CanCall(m0, trees) && Calls(m0, trees, runs, cache, codec, v) && lo <= hi <= |runs|
    requires Located(ManifestAt(m0, runs, lo), p, h, i)
    requires forall j :: lo <= j < hi ==> h !in IdsOf(m0, trees[j])
    ensures Located(ManifestAt(m0, runs, hi), p, h, i)
    decreases hi
  {
    hide TreeStep, Located, CanCall, PagesAt;
    if lo < hi {
      StaysAt(m0, trees, runs, cache, codec, v, lo, hi - 1, p, h, i);
      BeforeAt(m0, trees, runs, cache, codec, v, hi - 1);
      assert RunAt(m0, runs, cache, codec, v, hi - 1);
      var x := runs[hi - 1];
      StillLocated(x.before, x.root, x.live, cache, codec, v, x.r, p, h, i);
    }
  }

  lemma GoneNext(x: TreeRun, cache: Cache, codec: Codec, v: nat, p: nat)
    requires TreeStep(x.before, x.root, x.live, cache, codec, v, x.r) && PagesAreKeyed(x.before) && !Listed(x.before, p)
    ensures !Listed(x.r.m, p)
  {
    ListedAfter(x.before, x.root, x.live, cache, codec, v, x.r, p);
    hide TreeStep, PagesAreKeyed, Located;
    if p in KeptOf(x.before, x.root, x.live) {
      var g, i := KeptWasLocated(x.before, x.root, x.live, p);
    }
  }

  /** A page once dropped is not listed again. */
  lemma {:induction false} StaysGone(m0: Manifest, trees: seq<Candidate>, runs: seq<TreeRun>, cache: Cache,
                                     codec: Codec, v: nat,
                                     lo: nat, hi: nat, p: nat)
    requires Calls(m0, trees, runs, cache, codec, v) && lo <= hi <= |runs| && UniquePages(m0) && PagesAreKeyed(m0)
    requires !Listed(ManifestAt(m0, runs, lo), p)
    ensures !Listed(ManifestAt(m0, runs, hi), p)
    decreases hi
  {
    hide TreeStep, Listed, UniquePages, PagesAreKeyed;
    if lo < hi {
      StaysGone(m0, trees, runs, cache, codec, v, lo, hi - 1, p);
      SoundAt(m0, trees, runs, cache, codec, v, hi - 1);
      assert RunAt(m0, runs, cache, codec, v, hi - 1);
      GoneNext(runs[hi - 1], cache, codec, v, p);
    }
  }

  /** A tree that owns the page's group keeps the page exactly if its walk found it. */
  lemma OwnerStep(m0: Manifest, trees: seq<Candidate>, runs: seq<TreeRun>, cache: Cache, codec: Codec, v: nat, n: nat,
                  p: nat, h: nat, i: nat)
    requires CanCall(m0, trees) && Calls(m0, trees, runs, cache, codec, v) && n < |runs| && UniquePages(m0)
    requires PagesAreKeyed(m0)
    requires Located(ManifestAt(m0, runs, n), p, h, i) && h in IdsOf(m0, trees[n])
    ensures Listed(ManifestAt(m0, runs, n + 1), p) <==> p in trees[n].live
  {
    hide TreeStep, Located, CanCall, PagesAt, Listed, UniquePages, PagesAreKeyed;
    BeforeAt(m0, trees, runs, cache, codec, v, n);
    SoundAt(m0, trees, runs, cache, codec, v, n);
    assert RunAt(m0, runs, cache, codec, v, n);
    var x := runs[n];
    SharedPageStaysIffWalked(x.before, x.root, x.live, cache, codec, v, x.r, p, h, i);
  }

  /** Where the first owner puts a page that its walk found. */
  lemma PackedPlace(m0: Manifest, trees: seq<Candidate>, x: TreeRun, cache: Cache, codec: Codec, v: nat, n: nat, p: nat)
    returns (a: nat, i: nat)
    requires CanCall(m0, trees) && n < |trees| && Before(m0, trees, x.before, n)
    requires x.root == trees[n].root && x.live == trees[n].live
    requires TreeStep(x.before, x.root, x.live, cache, codec, v, x.r)
    requires p in KeptOf(x.before, x.root, x.live)
    ensures a < |x.r.ids| && a < GroupCount(m0, trees, n) && p in Foreseen(m0, trees, n)[a]
    ensures Located(x.r.m, p, x.r.ids[a], i)
    ensures x.r.ids[a] == IdAt(|x.before.groupPages|, IdsOf(m0, trees[n]), a)
  {
    KeptAsForeseen(m0, trees, x.before, n);
    IdsAreRuled(x, cache, codec, v);
    a, i := ChunkCovers(KeptOf(x.before, x.root, x.live), x.before.pagesPerGroup, p);
    PlaceOfChunk(x, cache, codec, v, p, a, i);
  }

  lemma PlaceOfChunk(x: TreeRun, cache: Cache, codec: Codec, v: nat, p: nat, a: nat, i: nat)
    requires TreeStep(x.before, x.root, x.live, cache, codec, v, x.r) && a < |x.r.ids|
    requires |x.r.ids| == |NewGroups(x.before, x.root, x.live)|
    requires i < |NewGroups(x.before, x.root, x.live)[a]| && NewGroups(x.before, x.root, x.live)[a][i] == p
    ensures Located(x.r.m, p, x.r.ids[a], i)
  {
    hide NewGroups, KeyAt, PagesAt, TableAt, OwnGroups, IdsByRule, UploadsFor, SameFrame, IdsAssigned;
    assert x.r.ids[a] in x.r.ids;
  }

  /** No page is in two of the groups a tree will be packed into. */
  lemma ForeseenOnce(m0: Manifest, trees: seq<Candidate>, n: nat, p: nat, a: nat, b: nat)
    requires CanCall(m0, trees) && n < |trees| && a < GroupCount(m0, trees, n) && b < GroupCount(m0, trees, n)
    requires p in Foreseen(m0, trees, n)[a] && p in Foreseen(m0, trees, n)[b]
    ensures a == b && p in trees[n].live
  {
    var ids := Unshared(m0, trees, n, IdsOf(m0, trees[n]));
    var kept, groups := Kept(m0, ids, trees[n].live), Foreseen(m0, trees, n);
    KeptPages(m0, ids, trees[n].live);
    hide Kept, ChunkPages, Unshared, CanCall;
    var i :| 0 <= i < |groups[a]| && groups[a][i] == p;
    var j :| 0 <= j < |groups[b]| && groups[b][j] == p;
    ChunkPlaceIsUnique(kept, m0.pagesPerGroup, a, i, b, j);
    ChunkAscends(kept, m0.pagesPerGroup, a);
  }

  /** Where the first owner of a page's group puts the page, and under which id. */
  lemma FirstPacked(m0: Manifest, trees: seq<Candidate>, runs: seq<TreeRun>, cache: Cache, codec: Codec, v: nat,
                    p: nat, g: nat, i: nat, n: nat) returns (a: nat, h: nat, j: nat)
    requires CanCall(m0, trees) && Calls(m0, trees, runs, cache, codec, v) && n < |trees| && |runs| == |trees|
    requires g in IdsOf(m0, trees[n]) && Located(ManifestAt(m0, runs, n), p, g, i) && p in trees[n].live
    ensures a < GroupCount(m0, trees, n) && p in Foreseen(m0, trees, n)[a]
    ensures Located(ManifestAt(m0, runs, n + 1), p, h, j)
    ensures if a < |IdsOf(m0, trees[n])| then h == IdsOf(m0, trees[n])[a]
            else forall l :: 0 <= l < |trees| ==> h !in IdsOf(m0, trees[l])
  {
    hide TreeStep, CanCall, PagesAt, Foreseen, OwnedEarlier, Located;
    BeforeAt(m0, trees, runs, cache, codec, v, n);
    assert RunAt(m0, runs, cache, codec, v, n);
    var x := runs[n];
    OwnedIsKept(x, p, g, i);
    a, j := PackedPlace(m0, trees, x, cache, codec, v, n, p);
    h := x.r.ids[a];
    FreshIsUnowned(m0, trees, n, a, |x.before.groupPages|);
  }

  /** A page whose first owner's walk found it stays exactly if no later tree owns the id it is packed under. */
  lemma FoundPageStays(m0: Manifest, trees: seq<Candidate>, runs: seq<TreeRun>, cache: Cache, codec: Codec, v: nat,
                       p: nat, g: nat, i: nat, n: nat) returns (a: nat)
    requires CanCall(m0, trees) && Calls(m0, trees, runs, cache, codec, v) && UniquePages(m0) && PagesAreKeyed(m0)
    requires FirstOwner(m0, trees, n, g) && Located(ManifestAt(m0, runs, n), p, g, i) && p in trees[n].live
    requires n < |runs|
    ensures a < GroupCount(m0, trees, n) && p in Foreseen(m0, trees, n)[a]
    ensures Listed(ManifestAt(m0, runs, |runs|), p) <==> PackedForGood(m0, trees, n, p, a)
  {
    hide CanCall, Calls, UniquePages, PagesAreKeyed, Foreseen, OwnedEarlier, Located, IdsOf;
    SameLength(m0, trees, runs, cache, codec, v);
    var h, j;
    a, h, j := FirstPacked(m0, trees, runs, cache, codec, v, p, g, i, n);
    if l :| n < l < |trees| && h in IdsOf(m0, trees[l]) {
      DroppedLater(m0, trees, runs, cache, codec, v, p, h, j, n, l);
    } else {
      StaysAt(m0, trees, runs, cache, codec, v, n + 1, |runs|, p, h, j);
    }
  }

  lemma OwnedIsKept(x: TreeRun, p: nat, g: nat, i: nat)
    requires x.root in x.before.btrees && Located(x.before, p, g, i) && g in TreeIds(x.before, x.root) && p in x.live
    ensures p in KeptOf(x.before, x.root, x.live)
  {
    hide PagesAt, KeyAt, Kept;
    KeptPages(x.before, TreeIds(x.before, x.root), x.live);
    InItsGroup(x.before, p, g, i);
  }

  /** An id past the groups known before is no tree's. */
  lemma FreshIsUnowned(m0: Manifest, trees: seq<Candidate>, n: nat, a: nat, len: nat)
    requires CanCall(m0, trees) && n < |trees| && len >= |m0.groupPages|
    ensures a >= |IdsOf(m0, trees[n])| ==> forall l :: 0 <= l < |trees| ==>
              IdAt(len, IdsOf(m0, trees[n]), a) !in IdsOf(m0, trees[l])
  {
    if a >= |IdsOf(m0, trees[n])| {
      forall l | 0 <= l < |trees|
        ensures IdAt(len, IdsOf(m0, trees[n]), a) !in IdsOf(m0, trees[l])
      {
        assert OwnGroups(m0, IdsOf(m0, trees[l]));
      }
    }
  }

  /** A page packed by tree `n` is dropped by the first later tree that owns its new group. */
  lemma {:induction false} DroppedLater(m0: Manifest, trees: seq<Candidate>, runs: seq<TreeRun>, cache: Cache,
                                        codec: Codec, v: nat,
                                        p: nat, h: nat, i: nat, n: nat, l: nat)
    requires CanCall(m0, trees) && Calls(m0, trees, runs, cache, codec, v) && UniquePages(m0) && PagesAreKeyed(m0)
    requires n < l < |runs| && |runs| == |trees| && p in trees[n].live && h in IdsOf(m0, trees[l])
    requires Located(ManifestAt(m0, runs, n + 1), p, h, i)
    ensures !Listed(ManifestAt(m0, runs, |runs|), p)
    decreases l
  {
    assert trees[n].live !! trees[l].live;
    hide TreeStep, Located, Listed, CanCall, UniquePages, PagesAreKeyed, Calls, IdsOf;
    if k :| n < k < l && h in IdsOf(m0, trees[k]) {
      DroppedLater(m0, trees, runs, cache, codec, v, p, h, i, n, k);
    } else {
      StaysAt(m0, trees, runs, cache, codec, v, n + 1, l, p, h, i);
      OwnerStep(m0, trees, runs, cache, codec, v, l, p, h, i);
      StaysGone(m0, trees, runs, cache, codec, v, l + 1, |runs|, p);
    }
  }

  lemma {:induction false} HasFirstOwner(m0: Manifest, trees: seq<Candidate>, g: nat, n: nat) returns (f: nat)
    requires n < |trees| && g in IdsOf(m0, trees[n])
    ensures FirstOwner(m0, trees, f, g)
    decreases n
  {
    if k :| 0 <= k < n && g in IdsOf(m0, trees[k]) {
      f := HasFirstOwner(m0, trees, g, k);
    } else {
      f := n;
    }
  }

  lemma FirstOwnerIsOne(m0: Manifest, trees: seq<Candidate>, g: nat, n: nat, f: nat)
    requires FirstOwner(m0, trees, n, g) && FirstOwner(m0, trees, f, g)
    ensures n == f
  {
  }

  /** The page stays: no tree owns its group, or its first owner packs it under an id that no later tree owns. */
  ghost predicate KeptByCall(m0: Manifest, trees: seq<Candidate>, p: nat, g: nat)
    requires m0.pagesPerGroup > 0
  {
    || (forall n :: 0 <= n < |trees| ==> g !in IdsOf(m0, trees[n]))
    || (exists n: nat, a: nat :: FirstOwner(m0, trees, n, g) && PackedForGood(m0, trees, n, p, a))
  }

  /**
   Which pages a whole call keeps, whatever its trees share: a page stays listed if and only if no tree
   of the call owns its group, or the first owner's walk found it and no later tree owns the id it is
   packed under.
   */
  lemma CallKeepsPageIff(m0: Manifest, trees: seq<Candidate>, runs: seq<TreeRun>, cache: Cache, codec: Codec, v: nat,
                         m: Manifest, p: nat, g: nat, i: nat)
    requires CanCall(m0, trees) && Chain(m0, runs, cache, codec, v, m) && |runs| == |trees|
    requires forall n :: 0 <= n < |runs| ==> runs[n].root == trees[n].root && runs[n].live == trees[n].live
    requires UniquePages(m0) && PagesAreKeyed(m0) && Located(m0, p, g, i)
    ensures Listed(m, p) <==> KeptByCall(m0, trees, p, g)
  {
    hide CanCall, Calls, UniquePages, PagesAreKeyed, Chain, PackedForGood, Located, IdsOf, OwnedEarlier;
    CallsOf(m0, trees, runs, cache, codec, v, m);
    SameLength(m0, trees, runs, cache, codec, v);
    if n :| 0 <= n < |trees| && g in IdsOf(m0, trees[n]) {
      var f := HasFirstOwner(m0, trees, g, n);
      OwnedPageStaysIff(m0, trees, runs, cache, codec, v, p, g, i, f);
      if n': nat, a: nat :| FirstOwner(m0, trees, n', g) && PackedForGood(m0, trees, n', p, a) {
        FirstOwnerIsOne(m0, trees, g, n', f);
      }
    } else {
      StaysAt(m0, trees, runs, cache, codec, v, 0, |runs|, p, g, i);
    }
  }

  lemma OwnedPageStaysIff(m0: Manifest, trees: seq<Candidate>, runs: seq<TreeRun>, cache: Cache, codec: Codec, v: nat,
                          p: nat, g: nat, i: nat, f: nat)
    requires CanCall(m0, trees) && Calls(m0, trees, runs, cache, codec, v) && UniquePages(m0) && PagesAreKeyed(m0)
    requires Located(m0, p, g, i) && FirstOwner(m0, trees, f, g) && |runs| == |trees| && m0.pagesPerGroup > 0
    ensures Listed(ManifestAt(m0, runs, |runs|), p) <==> exists a: nat :: PackedForGood(m0, trees, f, p, a)
  {
    hide CanCall, Calls, UniquePages, PagesAreKeyed, Located, IdsOf, Foreseen;
    assert forall j :: 0 <= j < f ==> g !in IdsOf(m0, trees[j]);
    StaysAt(m0, trees, runs, cache, codec, v, 0, f, p, g, i);
    if p in trees[f].live {
      var a := FoundPageStays(m0, trees, runs, cache, codec, v, p, g, i, f);
      forall b: nat | PackedForGood(m0, trees, f, p, b)
        ensures b == a
      {
        ForeseenOnce(m0, trees, f, p, a, b);
      }
    } else {
      OwnerStep(m0, trees, runs, cache, codec, v, f, p, g, i);
      StaysGone(m0, trees, runs, cache, codec, v, f + 1, |runs|, p);
      forall b: nat
        ensures !PackedForGood(m0, trees, f, p, b)
      {
        if PackedForGood(m0, trees, f, p, b) {
          ForeseenOnce(m0, trees, f, p, b, b);
        }
      }
    }
  }
}
