/**
 What goes wrong when trees share groups, as the small trees packed together by the importer do
 (src/tiered/import.rs:104-175): which pages a compaction drops, and when its deletes hit an object
 the manifest it publishes names. The conditions speak of the manifest and the walks before the call.
 */
module SharedGroups {
  import opened Common
  import opened StoreKeys
  import opened Tiered
  import opened Compaction
  import opened CompactTree
  import opened CompactionTheorems
  import opened CompactionSteps
  import opened Compactions
  import opened Graphs

  /**
   A page of another tree in a group of the compacted tree stays listed exactly if the walk counted
   it as the compacted tree's.
   */
  lemma SharedPageStaysIffWalked(m: Manifest, root: nat, live: set<nat>, cache: Cache, codec: Codec, v: nat,
                                 r: TreeResult, p: nat, g: nat, i: nat)
    requires TreeStep(m, root, live, cache, codec, v, r) && UniquePages(m) && Located(m, p, g, i)
    requires g in TreeIds(m, root)
    ensures Listed(r.m, p) <==> p in live
  {
    hide PagesAt, KeyAt, TableAt, Kept, ChunkPages, NewGroups, UploadsFor, OwnGroups, TreeCompacted;
    ListedAfter(m, root, live, cache, codec, v, r, p);
    KeptPages(m, TreeIds(m, root), live);
    InItsGroup(m, p, g, i);
  }

  lemma InItsGroup(m: Manifest, p: nat, g: nat, i: nat)
    requires Located(m, p, g, i)
    ensures p in PagesAt(m, g)
  {
  }

  // ---------- the call, as known before it ----------

  ghost function IdsOf(m: Manifest, c: Candidate): seq<nat> {
    if c.root in m.btrees then TreeIds(m, c.root) else []
  }

  ghost predicate OwnedEarlier(m: Manifest, trees: seq<Candidate>, n: nat, g: nat) {
    exists i :: 0 <= i < n && i < |trees| && g in IdsOf(m, trees[i])
  }

  /** Those of the ids that no tree before tree `n` owns. */
  ghost function Unshared(m: Manifest, trees: seq<Candidate>, n: nat, ids: seq<nat>): (r: seq<nat>)
    ensures forall g: nat :: g in r <==> g in ids && !OwnedEarlier(m, trees, n, g)
  {
    if ids == [] then []
    else
      var init, last := ids[..|ids| - 1], ids[|ids| - 1];
      Unshared(m, trees, n, init) + if OwnedEarlier(m, trees, n, last) then [] else [last]
  }

  /** What tree `n` will be packed into: its live pages in groups no earlier tree owns. */
  ghost function Foreseen(m: Manifest, trees: seq<Candidate>, n: nat): seq<seq<nat>>
    requires n < |trees| && m.pagesPerGroup > 0
  {
    ChunkPages(Kept(m, Unshared(m, trees, n, IdsOf(m, trees[n])), trees[n].live), m.pagesPerGroup)
  }

  ghost function GroupCount(m: Manifest, trees: seq<Candidate>, n: nat): nat
    requires n < |trees| && m.pagesPerGroup > 0
  {
    |Foreseen(m, trees, n)|
  }

  /** Tree `n` will pack a group under its own id `g`. */
  ghost predicate Takes(m: Manifest, trees: seq<Candidate>, n: nat, g: nat)
    requires n < |trees| && m.pagesPerGroup > 0
  {
    var ids := IdsOf(m, trees[n]);
    exists b :: 0 <= b < |ids| && b < GroupCount(m, trees, n) && ids[b] == g
  }

  /** Distinct trees with disjoint walks, each listing its groups once. */
  ghost predicate CanCall(m: Manifest, trees: seq<Candidate>) {
    && m.pagesPerGroup > 0
    && (forall i :: 0 <= i < |trees| ==> trees[i].root in m.btrees && OwnGroups(m, IdsOf(m, trees[i])))
    && (forall i, j :: 0 <= i < j < |trees| ==> trees[i].root != trees[j].root && trees[i].live !! trees[j].live)
  }

  /** Two trees will take one id, and no later tree owns it. */
  ghost predicate TakenTwice(m: Manifest, trees: seq<Candidate>, g: nat, i: nat, l: nat)
    requires m.pagesPerGroup > 0
  {
    && i < l < |trees| && Takes(m, trees, i, g) && Takes(m, trees, l, g)
    && forall j :: l < j < |trees| ==> g !in IdsOf(m, trees[j])
  }

  // ---------- the call, tree by tree ----------

  lemma {:induction false} ReplacedByRun(runs: seq<TreeRun>, k: Key)
    ensures k in AllReplaced(runs) <==> exists n :: 0 <= n < |runs| && k in runs[n].r.replaced
  {
    if runs != [] {
      var init, last := runs[..|runs| - 1], runs[|runs| - 1];
      ReplacedByRun(init, k);
      assert runs == init + [last];
      assert runs[|init|] == last;
    }
  }

  /** The state before tree `n`, as far as later trees can tell. */
  ghost predicate Before(m0: Manifest, trees: seq<Candidate>, m: Manifest, n: nat) {
    && SameFrame(m0, m) && |m0.groupPages| <= |m.groupPages|
    && (forall l :: n <= l < |trees| ==> trees[l].root in m.btrees && TreeIds(m, trees[l].root) == IdsOf(m0, trees[l]))
    && (forall g: nat, p: nat :: g < |m0.groupPages| && OwnedEarlier(m0, trees, n, g) && p in PagesAt(m, g) ==>
          exists i :: 0 <= i < n && i < |trees| && p in trees[i].live)
    && (forall g: nat :: g < |m0.groupPages| && !OwnedEarlier(m0, trees, n, g) ==> PagesAt(m, g) == PagesAt(m0, g))
  }

  /** What tree `n` will keep can be read off the first manifest. */
  lemma {:induction false} KeptAsForeseen(m0: Manifest, trees: seq<Candidate>, m: Manifest, n: nat)
    requires CanCall(m0, trees) && n < |trees| && Before(m0, trees, m, n)
    ensures KeptOf(m, trees[n].root, trees[n].live) ==
            Kept(m0, Unshared(m0, trees, n, IdsOf(m0, trees[n])), trees[n].live)
  {
    var ids, live := IdsOf(m0, trees[n]), trees[n].live;
    var own := Unshared(m0, trees, n, ids);
    KeptPages(m, ids, live);
    KeptPages(m0, own, live);
    hide Kept, PagesAt, Unshared, OwnedEarlier;
    forall p: nat
      ensures p in Kept(m, ids, live) <==> p in Kept(m0, own, live)
    {
      if p in live {
        forall g <- ids
          ensures p in PagesAt(m, g) <==> g in own && p in PagesAt(m0, g)
        {
          GroupAsForeseen(m0, trees, m, n, g, p);
        }
      }
    }
    SameMembersSameList(Kept(m, ids, live), Kept(m0, own, live));
  }

  lemma GroupAsForeseen(m0: Manifest, trees: seq<Candidate>, m: Manifest, n: nat, g: nat, p: nat)
    requires CanCall(m0, trees) && n < |trees| && Before(m0, trees, m, n) && g in IdsOf(m0, trees[n])
    requires p in trees[n].live
    ensures p in PagesAt(m, g) <==> !OwnedEarlier(m0, trees, n, g) && p in PagesAt(m0, g)
  {
    hide PagesAt, OwnedEarlier;
    var ids := IdsOf(m0, trees[n]);
    var x :| 0 <= x < |ids| && ids[x] == g;
    assert g < |m0.groupPages|;
    assert forall i :: 0 <= i < n ==> trees[i].live !! trees[n].live;
  }

  /** Tree `n` gets the ids foreseen for it; the others it gets are past every group known before it. */
  lemma IdsAsForeseen(m0: Manifest, trees: seq<Candidate>, x: TreeRun, cache: Cache, codec: Codec, v: nat, n: nat,
                      g: nat)
    requires CanCall(m0, trees) && n < |trees| && Before(m0, trees, x.before, n)
    requires x.root == trees[n].root && x.live == trees[n].live
    requires TreeStep(x.before, x.root, x.live, cache, codec, v, x.r)
    ensures Takes(m0, trees, n, g) ==> g in x.r.ids && g in IdsOf(m0, trees[n])
    ensures g in x.r.ids ==> Takes(m0, trees, n, g) || g >= |x.before.groupPages|
  {
    KeptAsForeseen(m0, trees, x.before, n);
    IdsAreRuled(x, cache, codec, v);
    hide TreeStep, Kept, ChunkPages, PagesAt, Unshared, OwnGroups;
    var ids := IdsOf(m0, trees[n]);
    assert |x.r.ids| == GroupCount(m0, trees, n);
    if g in x.r.ids {
      var b :| 0 <= b < |x.r.ids| && x.r.ids[b] == g;
      assert b < |ids| ==> Takes(m0, trees, n, g);
    }
  }

  lemma IdsAreRuled(x: TreeRun, cache: Cache, codec: Codec, v: nat)
    requires TreeStep(x.before, x.root, x.live, cache, codec, v, x.r)
    ensures |x.r.ids| == |NewGroups(x.before, x.root, x.live)|
    ensures forall b :: 0 <= b < |x.r.ids| ==> x.r.ids[b] == IdAt(|x.before.groupPages|, TreeIds(x.before, x.root), b)
  {
    hide NewGroups, KeyAt, PagesAt, TableAt;
  }

  lemma OwnedAfter(m: Manifest, trees: seq<Candidate>, n: nat, g: nat)
    requires n < |trees|
    ensures OwnedEarlier(m, trees, n + 1, g) <==> OwnedEarlier(m, trees, n, g) || g in IdsOf(m, trees[n])
  {
  }

  /** The pages of a group after tree `n`: kept ones, none, or as before. */
  lemma PagesAfter(m0: Manifest, trees: seq<Candidate>, x: TreeRun, cache: Cache, codec: Codec, v: nat, n: nat, g: nat)
    requires CanCall(m0, trees) && n < |trees| && Before(m0, trees, x.before, n) && g < |m0.groupPages|
    requires x.root == trees[n].root && x.live == trees[n].live
    requires TreeStep(x.before, x.root, x.live, cache, codec, v, x.r)
    ensures g in IdsOf(m0, trees[n]) ==> forall p <- PagesAt(x.r.m, g) :: p in x.live
    ensures g !in IdsOf(m0, trees[n]) ==> PagesAt(x.r.m, g) == PagesAt(x.before, g)
  {
    hide TreeStep, PagesAt, OwnGroups, Takes, OwnedEarlier;
    IdsAsForeseen(m0, trees, x, cache, codec, v, n, g);
    TakenIsOwn(m0, trees, n, g);
    StepPages(x, cache, codec, v, g);
  }

  lemma TakenIsOwn(m: Manifest, trees: seq<Candidate>, n: nat, g: nat)
    requires n < |trees| && m.pagesPerGroup > 0
    ensures Takes(m, trees, n, g) ==> g in IdsOf(m, trees[n])
  {
    hide GroupCount;
  }

  /** A tree step leaves only live pages in the groups it takes, none in those it gives up, the rest alone. */
  lemma StepPages(x: TreeRun, cache: Cache, codec: Codec, v: nat, g: nat)
    requires TreeStep(x.before, x.root, x.live, cache, codec, v, x.r)
    ensures g in x.r.ids || g in TreeIds(x.before, x.root) ==> forall p <- PagesAt(x.r.m, g) :: p in x.live
    ensures g !in x.r.ids && g !in TreeIds(x.before, x.root) ==> PagesAt(x.r.m, g) == PagesAt(x.before, g)
  {
    KeptPages(x.before, TreeIds(x.before, x.root), x.live);
    hide KeyAt, PagesAt, TableAt, Kept, ChunkPages, OwnGroups, UploadsFor, IdsByRule, IdsAssigned, SameFrame;
    if g in x.r.ids {
      var a :| 0 <= a < |x.r.ids| && x.r.ids[a] == g;
      ChunkAscends(KeptOf(x.before, x.root, x.live), x.before.pagesPerGroup, a);
    }
  }

  lemma BeforeNext(m0: Manifest, trees: seq<Candidate>, x: TreeRun, cache: Cache, codec: Codec, v: nat, n: nat)
    requires CanCall(m0, trees) && n < |trees| && Before(m0, trees, x.before, n)
    requires x.root == trees[n].root && x.live == trees[n].live
    requires TreeStep(x.before, x.root, x.live, cache, codec, v, x.r)
    ensures Before(m0, trees, x.r.m, n + 1)
  {
    StepShape(m0, trees, x, cache, codec, v, n);
    hide TreeStep, PagesAt, OwnedEarlier, SameFrame, IdsOf, OwnGroups;
    forall g: nat | g < |m0.groupPages|
      ensures OwnedEarlier(m0, trees, n + 1, g) ==>
                forall p <- PagesAt(x.r.m, g) :: exists i :: 0 <= i < n + 1 && i < |trees| && p in trees[i].live
      ensures !OwnedEarlier(m0, trees, n + 1, g) ==> PagesAt(x.r.m, g) == PagesAt(m0, g)
    {
      OwnedAfter(m0, trees, n, g);
      PagesAfter(m0, trees, x, cache, codec, v, n, g);
      forall p <- PagesAt(x.r.m, g) | OwnedEarlier(m0, trees, n + 1, g)
        ensures exists i :: 0 <= i < n + 1 && i < |trees| && p in trees[i].live
      {
        if g in IdsOf(m0, trees[n]) {
          assert p in trees[n].live;
        } else {
          var i :| 0 <= i < n && i < |trees| && p in trees[i].live;
        }
      }
    }
  }

  lemma StepShape(m0: Manifest, trees: seq<Candidate>, x: TreeRun, cache: Cache, codec: Codec, v: nat, n: nat)
    requires CanCall(m0, trees) && n < |trees| && Before(m0, trees, x.before, n)
    requires x.root == trees[n].root && TreeStep(x.before, x.root, x.live, cache, codec, v, x.r)
    ensures SameFrame(m0, x.r.m) && |m0.groupPages| <= |x.r.m.groupPages|
    ensures forall l :: n + 1 <= l < |trees| ==>
              trees[l].root in x.r.m.btrees && TreeIds(x.r.m, trees[l].root) == IdsOf(m0, trees[l])
  {
    hide NewGroups, KeyAt, PagesAt, TableAt, OwnedEarlier, OwnGroups, IdsAssigned, IdsByRule, UploadsFor;
  }

  lemma {:induction false} BeforeAt(m0: Manifest, trees: seq<Candidate>, runs: seq<TreeRun>, cache: Cache,
                                    codec: Codec, v: nat, n: nat)
    requires CanCall(m0, trees) && Calls(m0, trees, runs, cache, codec, v) && n <= |trees|
    ensures Before(m0, trees, ManifestAt(m0, runs, n), n)
  {
    hide TreeStep, CanCall, Before;
    if n == 0 {
      NothingDone(m0, trees, cache, codec, v);
    } else {
      BeforeAt(m0, trees, runs, cache, codec, v, n - 1);
      assert RunAt(m0, runs, cache, codec, v, n - 1);
      BeforeNext(m0, trees, runs[n - 1], cache, codec, v, n - 1);
    }
  }

  // ---------- keys along the call ----------

  /** The tree owned the group or took its id. */
  ghost predicate Touches(x: TreeRun, g: nat) {
    g in x.r.ids || (x.root in x.before.btrees && g in TreeIds(x.before, x.root))
  }

  /** What tree `n` does to the key of any group, and which keys it replaces. */
  lemma KeyStep(x: TreeRun, cache: Cache, codec: Codec, v: nat, g: nat, k: Key)
    requires TreeStep(x.before, x.root, x.live, cache, codec, v, x.r)
    ensures KeyAt(x.r.m, g) == if g in x.r.ids then Some(PageGroup(g, v))
      else if g in TreeIds(x.before, x.root) then None else KeyAt(x.before, g)
    ensures k in x.r.replaced <==> exists h: nat :: Touches(x, h) && KeyAt(x.before, h) == Some(k)
    ensures g in x.r.ids ==> g < |x.r.m.groupPages|
    ensures |x.before.groupPages| <= |x.r.m.groupPages|
  {
    hide NewGroups, KeyAt, PagesAt, TableAt, OwnGroups, IdsByRule, UploadsFor, SameFrame;
  }

  /** No group key, or one of the call's own version. */
  ghost predicate IsNew(m: Manifest, v: nat, g: nat) {
    KeyAt(m, g).None? || KeyAt(m, g) == Some(PageGroup(g, v))
  }

  /** Every group key is the first manifest's or the call's own; the call's own stand for groups the vectors reach. */
  lemma {:induction false} KeysAt(m0: Manifest, trees: seq<Candidate>, runs: seq<TreeRun>, cache: Cache, codec: Codec,
                                  v: nat, n: nat, g: nat)
    requires Calls(m0, trees, runs, cache, codec, v) && n <= |runs|
    ensures KeyAt(ManifestAt(m0, runs, n), g) == KeyAt(m0, g) || IsNew(ManifestAt(m0, runs, n), v, g)
    ensures KeyAt(ManifestAt(m0, runs, n), g) == Some(PageGroup(g, v)) && KeyAt(m0, g) != Some(PageGroup(g, v)) ==>
              g < |ManifestAt(m0, runs, n).groupPages|
  {
    hide TreeStep, KeyAt;
    if n > 0 {
      KeysAt(m0, trees, runs, cache, codec, v, n - 1, g);
      assert RunAt(m0, runs, cache, codec, v, n - 1);
      KeyStep(runs[n - 1], cache, codec, v, g, PageGroup(g, v));
    }
  }

  /** Once a tree has touched a group, its key is the call's own or gone, for the rest of the call. */
  lemma {:induction false} StaysNew(m0: Manifest, trees: seq<Candidate>, runs: seq<TreeRun>, cache: Cache,
                                    codec: Codec, v: nat, n: nat, n': nat, g: nat)
    requires Calls(m0, trees, runs, cache, codec, v) && n < n' <= |runs|
    requires Touches(runs[n], g)
    ensures IsNew(ManifestAt(m0, runs, n'), v, g)
    decreases n'
  {
    hide TreeStep, KeyAt;
    assert RunAt(m0, runs, cache, codec, v, n' - 1);
    KeyStep(runs[n' - 1], cache, codec, v, g, PageGroup(g, v));
    if n < n' - 1 {
      StaysNew(m0, trees, runs, cache, codec, v, n, n' - 1, g);
    }
  }

  /** What tree `n` does to the key of a group of the first manifest, as foreseen. */
  lemma ForeseenKeyStep(m0: Manifest, trees: seq<Candidate>, runs: seq<TreeRun>, cache: Cache, codec: Codec, v: nat,
                        n: nat, g: nat)
    requires CanCall(m0, trees) && Calls(m0, trees, runs, cache, codec, v) && n < |runs| && g < |m0.groupPages|
    ensures KeyAt(ManifestAt(m0, runs, n + 1), g) ==
            if Takes(m0, trees, n, g) then Some(PageGroup(g, v)) else if g in IdsOf(m0, trees[n]) then None
              else KeyAt(ManifestAt(m0, runs, n), g)
    ensures g in IdsOf(m0, trees[n]) && KeyAt(ManifestAt(m0, runs, n), g) == Some(PageGroup(g, v)) ==>
              PageGroup(g, v) in runs[n].r.replaced
  {
    BeforeAt(m0, trees, runs, cache, codec, v, n);
    hide TreeStep, KeyAt, PagesAt, OwnedEarlier, Takes;
    assert RunAt(m0, runs, cache, codec, v, n);
    IdsAsForeseen(m0, trees, runs[n], cache, codec, v, n, g);
    KeyStep(runs[n], cache, codec, v, g, PageGroup(g, v));
  }

  /** A group of the first manifest that has the call's own key got it from the last tree that owns it. */
  lemma {:induction false} LastTaker(m0: Manifest, trees: seq<Candidate>, runs: seq<TreeRun>, cache: Cache,
                                     codec: Codec, v: nat, n: nat, g: nat)
    returns (l: nat)
    requires CanCall(m0, trees) && Calls(m0, trees, runs, cache, codec, v) && n <= |runs| && g < |m0.groupPages|
    requires KeyAt(ManifestAt(m0, runs, n), g) == Some(PageGroup(g, v)) && KeyAt(m0, g) != Some(PageGroup(g, v))
    ensures l < n && Takes(m0, trees, l, g) && forall j :: l < j < n ==> g !in IdsOf(m0, trees[j])
  {
    hide CanCall, Calls, KeyAt, Takes, IdsOf;
    SameLength(m0, trees, runs, cache, codec, v);
    l := n;
    if n > 0 {
      ForeseenKeyStep(m0, trees, runs, cache, codec, v, n - 1, g);
      if Takes(m0, trees, n - 1, g) {
        l := n - 1;
      } else {
        l := LastTaker(m0, trees, runs, cache, codec, v, n - 1, g);
      }
    }
  }

  lemma SameLength(m0: Manifest, trees: seq<Candidate>, runs: seq<TreeRun>, cache: Cache, codec: Codec, v: nat)
    requires CanCall(m0, trees) && Calls(m0, trees, runs, cache, codec, v)
    ensures |runs| == |trees| && m0.pagesPerGroup > 0
  {
  }

  /** After tree `i` took a group, its key is there, or has been replaced by a tree in between. */
  lemma {:induction false} KeyOrReplaced(m0: Manifest, trees: seq<Candidate>, runs: seq<TreeRun>, cache: Cache,
                                         codec: Codec, v: nat, i: nat, n: nat, g: nat)
    requires CanCall(m0, trees) && Calls(m0, trees, runs, cache, codec, v) && i < n <= |runs| && g < |m0.groupPages|
    requires |runs| == |trees| && Takes(m0, trees, i, g)
    ensures KeyAt(ManifestAt(m0, runs, n), g) ==
            Some(PageGroup(g, v)) || exists j :: 0 <= j < n && PageGroup(g, v) in runs[j].r.replaced
    decreases n
  {
    hide CanCall, Calls, KeyAt, Takes, IdsOf;
    ForeseenKeyStep(m0, trees, runs, cache, codec, v, n - 1, g);
    if i < n - 1 {
      KeyOrReplaced(m0, trees, runs, cache, codec, v, i, n - 1, g);
    }
  }

  /** A key the last of its owners put there stays. */
  lemma {:induction false} KeyStays(m0: Manifest, trees: seq<Candidate>, runs: seq<TreeRun>, cache: Cache,
                                    codec: Codec, v: nat, l: nat, n: nat, g: nat)
    requires CanCall(m0, trees) && Calls(m0, trees, runs, cache, codec, v) && l < n <= |runs| && g < |m0.groupPages|
    requires |runs| == |trees| && Takes(m0, trees, l, g) && forall j :: l < j < |trees| ==> g !in IdsOf(m0, trees[j])
    ensures KeyAt(ManifestAt(m0, runs, n), g) == Some(PageGroup(g, v))
    decreases n
  {
    hide CanCall, Calls, KeyAt, IdsOf, Takes;
    SameLength(m0, trees, runs, cache, codec, v);
    ForeseenKeyStep(m0, trees, runs, cache, codec, v, n - 1, g);
    if l < n - 1 {
      KeyStays(m0, trees, runs, cache, codec, v, l, n - 1, g);
    }
  }

  // ---------- the theorem ----------

  ghost predicate DeletesNamedKey(runs: seq<TreeRun>, m: Manifest) {
    exists k: Key :: k in AllReplaced(runs) && References(m, k)
  }

  lemma {:induction false} TakenTwiceDeletes(m0: Manifest, trees: seq<Candidate>, runs: seq<TreeRun>, cache: Cache,
                                             codec: Codec, v: nat, g: nat, i: nat, l: nat)
    requires CanCall(m0, trees) && Calls(m0, trees, runs, cache, codec, v) && TakenTwice(m0, trees, g, i, l)
    ensures PageGroup(g, v) in AllReplaced(runs) && References(ManifestAt(m0, runs, |runs|), PageGroup(g, v))
  {
    TakenIsOld(m0, trees, l, g);
    hide CanCall, Calls, KeyAt, Takes, IdsOf;
    SameLength(m0, trees, runs, cache, codec, v);
    KeyStays(m0, trees, runs, cache, codec, v, l, |runs|, g);
    KeyOrReplaced(m0, trees, runs, cache, codec, v, i, l, g);
    ForeseenKeyStep(m0, trees, runs, cache, codec, v, l, g);
    ReplacedByRun(runs, PageGroup(g, v));
  }

  lemma TakenIsOld(m0: Manifest, trees: seq<Candidate>, l: nat, g: nat)
    requires CanCall(m0, trees) && l < |trees| && Takes(m0, trees, l, g)
    ensures g < |m0.groupPages| && g in IdsOf(m0, trees[l])
  {
    hide GroupCount;
  }

  /** Where a deleted key that is still named comes from. */
  lemma NamedIsTakenTwice(m0: Manifest, trees: seq<Candidate>, runs: seq<TreeRun>, cache: Cache, codec: Codec, v: nat,
                          n: nat, g: nat)
    returns (i: nat, l: nat)
    requires CanCall(m0, trees) && Calls(m0, trees, runs, cache, codec, v) && n < |runs|
    requires KeyAt(m0, g) != Some(PageGroup(g, v))
    requires Touches(runs[n], g)
    requires KeyAt(ManifestAt(m0, runs, n), g) == Some(PageGroup(g, v))
    requires KeyAt(ManifestAt(m0, runs, |runs|), g) == Some(PageGroup(g, v))
    ensures TakenTwice(m0, trees, g, i, l)
  {
    SameLength(m0, trees, runs, cache, codec, v);
    BeforeAt(m0, trees, runs, cache, codec, v, n);
    KeysAt(m0, trees, runs, cache, codec, v, n, g);
    hide TreeStep, KeyAt, PagesAt, OwnedEarlier, Takes;
    assert RunAt(m0, runs, cache, codec, v, n);
    IdsAsForeseen(m0, trees, runs[n], cache, codec, v, n, g);
    assert g in IdsOf(m0, trees[n]) && g < |m0.groupPages|;
    i := LastTaker(m0, trees, runs, cache, codec, v, n, g);
    l := LastTaker(m0, trees, runs, cache, codec, v, |runs|, g);
  }

  /**
   A call over any trees deletes an object that the manifest it publishes names exactly if two of
   the trees will take one group id and no later tree owns it.
   */
  lemma {:induction false} DeletesNamedKeyIffTakenTwice(m0: Manifest, trees: seq<Candidate>, runs: seq<TreeRun>,
                                                        cache: Cache, codec: Codec, v: nat, m: Manifest)
    requires WellKeyed(m0) && KeysUpTo(m0, m0.version) && m0.version < v && CanCall(m0, trees)
    requires Chain(m0, runs, cache, codec, v, m) && |runs| == |trees|
    requires forall n :: 0 <= n < |runs| ==> runs[n].root == trees[n].root && runs[n].live == trees[n].live
    ensures DeletesNamedKey(runs, m) <==> exists g: nat, i: nat, l: nat :: TakenTwice(m0, trees, g, i, l)
  {
    CallsOf(m0, trees, runs, cache, codec, v, m);
    hide CanCall, Calls, TakenTwice, Chain, AllReplaced, References, WellKeyed, KeysUpTo, KeyAt;
    if g: nat, i: nat, l: nat :| TakenTwice(m0, trees, g, i, l) {
      TakenTwiceDeletes(m0, trees, runs, cache, codec, v, g, i, l);
    }
    if DeletesNamedKey(runs, m) {
      var k: Key :| k in AllReplaced(runs) && References(m, k);
      var g, i, l := NamedAndDeleted(m0, trees, runs, cache, codec, v, k);
    }
  }

  /** A key that is deleted and still named was taken twice. */
  lemma {:induction false} NamedAndDeleted(m0: Manifest, trees: seq<Candidate>, runs: seq<TreeRun>, cache: Cache,
                                           codec: Codec, v: nat, k: Key)
    returns (g: nat, i: nat, l: nat)
    requires WellKeyed(m0) && KeysUpTo(m0, m0.version) && m0.version < v && CanCall(m0, trees)
    requires Calls(m0, trees, runs, cache, codec, v)
    requires k in AllReplaced(runs) && References(ManifestAt(m0, runs, |runs|), k)
    ensures m0.pagesPerGroup > 0 && TakenTwice(m0, trees, g, i, l)
  {
    SameLength(m0, trees, runs, cache, codec, v);
    hide CanCall, Calls, TakenTwice, AllReplaced, References, WellKeyed, KeyAt, ManifestAt, Touches;
    ReplacedByRun(runs, k);
    var n :| 0 <= n < |runs| && k in runs[n].r.replaced;
    g := ReplacedGroup(m0, trees, runs, cache, codec, v, n, k);
    NamedByGroup(m0, trees, runs, cache, codec, v, k, g);
    StaysNew(m0, trees, runs, cache, codec, v, n, |runs|, g);
    OldKeyIsOlder(m0, v, g);
    i, l := NamedIsTakenTwice(m0, trees, runs, cache, codec, v, n, g);
  }

  lemma OldKeyIsOlder(m0: Manifest, v: nat, g: nat)
    requires KeysUpTo(m0, m0.version) && m0.version < v
    ensures KeyAt(m0, g) != Some(PageGroup(g, v))
  {
  }

  /** A replaced key is the key of the group it was replaced on. */
  lemma ReplacedGroup(m0: Manifest, trees: seq<Candidate>, runs: seq<TreeRun>, cache: Cache, codec: Codec, v: nat,
                      n: nat, k: Key)
    returns (g: nat)
    requires WellKeyed(m0) && Calls(m0, trees, runs, cache, codec, v) && n < |runs| && k in runs[n].r.replaced
    ensures Touches(runs[n], g)
    ensures KeyAt(ManifestAt(m0, runs, n), g) == Some(k) && k.PageGroup? && k.gid == g
  {
    hide TreeStep, KeyAt;
    assert RunAt(m0, runs, cache, codec, v, n);
    KeyStep(runs[n], cache, codec, v, 0, k);
    g :| Touches(runs[n], g) && KeyAt(runs[n].before, g) == Some(k);
    KeysAt(m0, trees, runs, cache, codec, v, n, g);
  }

  /** A group key that the last manifest names, it names as that group's. */
  lemma NamedByGroup(m0: Manifest, trees: seq<Candidate>, runs: seq<TreeRun>, cache: Cache, codec: Codec, v: nat,
                     k: Key, g: nat)
    requires WellKeyed(m0) && CanCall(m0, trees) && Calls(m0, trees, runs, cache, codec, v) && k.PageGroup?
    requires k.gid == g
    requires References(ManifestAt(m0, runs, |runs|), k)
    ensures KeyAt(ManifestAt(m0, runs, |runs|), g) == Some(k)
  {
    BeforeAt(m0, trees, runs, cache, codec, v, |runs|);
    hide TreeStep, KeyAt, PagesAt, OwnedEarlier, Calls, CanCall;
    var m := ManifestAt(m0, runs, |runs|);
    var h: nat :| KeyAt(m, h) == Some(k);
    KeysAt(m0, trees, runs, cache, codec, v, |runs|, h);
  }

  // ---------- every such call can be made ----------

  lemma NextOwns(m0: Manifest, trees: seq<Candidate>, m: Manifest, n: nat)
    requires CanCall(m0, trees) && n < |trees| && Before(m0, trees, m, n)
    ensures trees[n].root in m.btrees && m.pagesPerGroup > 0 && OwnGroups(m, TreeIds(m, trees[n].root))
  {
    hide PagesAt, OwnedEarlier;
  }

  /** The trees can be compacted one after the other, whatever they share. */
  lemma {:induction false} CallExists(m0: Manifest, trees: seq<Candidate>, cache: Cache, codec: Codec, v: nat)
    returns (runs: seq<TreeRun>, m: Manifest)
    requires CanCall(m0, trees)
    ensures Chain(m0, runs, cache, codec, v, m) && |runs| == |trees|
    ensures forall n :: 0 <= n < |runs| ==> runs[n].root == trees[n].root && runs[n].live == trees[n].live
  {
    hide CanCall, Before, TreeStep, Chain;
    runs, m := [], m0;
    NothingDone(m0, trees, cache, codec, v);
    for n := 0 to |trees|
      invariant |runs| == n && Chain(m0, runs, cache, codec, v, m) && Before(m0, trees, m, n)
      invariant forall i :: 0 <= i < n ==> runs[i].root == trees[i].root && runs[i].live == trees[i].live
    {
      var x := NextRun(m0, trees, m, cache, codec, v, n);
      ChainGrows(m0, runs, x, cache, codec, v);
      runs, m := runs + [x], x.r.m;
    }
  }

  lemma NextRun(m0: Manifest, trees: seq<Candidate>, m: Manifest, cache: Cache, codec: Codec, v: nat, n: nat)
    returns (x: TreeRun)
    requires CanCall(m0, trees) && n < |trees| && Before(m0, trees, m, n)
    ensures x.before == m && x.root == trees[n].root && x.live == trees[n].live
    ensures TreeStep(m, x.root, x.live, cache, codec, v, x.r) && Before(m0, trees, x.r.m, n + 1)
  {
    hide CanCall, Before, TreeStep, PackedTree, OwnGroups;
    NextOwns(m0, trees, m, n);
    var c := trees[n];
    StepExists(m, c.root, c.live, cache, codec, v);
    x := TreeRun(m, c.root, c.live, PackedTree(m, c.root, c.live, cache, codec, v));
    BeforeNext(m0, trees, x, cache, codec, v, n);
  }

  lemma {:induction false} NothingDone(m0: Manifest, trees: seq<Candidate>, cache: Cache, codec: Codec, v: nat)
    requires CanCall(m0, trees)
    ensures Chain(m0, [], cache, codec, v, m0) && Before(m0, trees, m0, 0)
  {
    hide PagesAt;
  }
}
