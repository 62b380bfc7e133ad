/**
 What a whole `compact` call (src/tiered/bench.rs:549-698) does to the meaning of a manifest whose trees
 own disjoint groups, said of that manifest, its objects and the walks before the call. No tree then
 meets what an earlier one packed; only the fresh ids move.
 */
module CallMeaning {
  import opened Common
  import opened StoreKeys
  import opened Tiered
  import opened Compaction
  import opened CompactTree
  import opened CompactionTheorems
  import opened StaleOverrides
  import opened Compactions
  import opened Graphs

  // ---------- what is known before the call ----------

  /** Distinct trees of a manifest whose trees own disjoint groups. */
  ghost predicate Disjoint(m: Manifest, trees: seq<Candidate>) {
    && m.pagesPerGroup > 0 && !m.positional && TreesOwnGroups(m)
    && (forall i :: 0 <= i < |trees| ==> trees[i].root in m.btrees)
    && (forall i, j :: 0 <= i < j < |trees| ==> trees[i].root != trees[j].root)
  }

  ghost function OwnIds(m: Manifest, c: Candidate): seq<nat> {
    if c.root in m.btrees then TreeIds(m, c.root) else []
  }

  /** What a tree will be packed into. */
  ghost function Packs(m: Manifest, c: Candidate): seq<seq<nat>> {
    if c.root in m.btrees && m.pagesPerGroup > 0 then NewGroups(m, c.root, c.live) else []
  }

  /** How many groups the manifest will have when tree `n` begins. */
  ghost function LenAt(m: Manifest, trees: seq<Candidate>, n: nat): (len: nat)
    requires n <= |trees|
    ensures len >= |m.groupPages|
  {
    if n == 0 then |m.groupPages|
    else
      LengthGrows(LenAt(m, trees, n - 1), OwnIds(m, trees[n - 1]), |Packs(m, trees[n - 1])|);
      LengthAfter(LenAt(m, trees, n - 1), OwnIds(m, trees[n - 1]), |Packs(m, trees[n - 1])|)
  }

  /** The id that new group `a` of tree `n` will have. */
  ghost function CallId(m: Manifest, trees: seq<Candidate>, n: nat, a: nat): nat
    requires n < |trees|
  {
    IdAt(LenAt(m, trees, n), OwnIds(m, trees[n]), a)
  }

  ghost predicate Packed(m: Manifest, trees: seq<Candidate>, n: nat, a: nat) {
    n < |trees| && a < |Packs(m, trees[n])|
  }

  /** Every old frame on an id the call will use is long enough for the pages packed under it. */
  ghost predicate CallFits(objects: Objects, m: Manifest, trees: seq<Candidate>, codec: Codec) {
    forall n: nat, a: nat :: Packed(m, trees, n, a) ==>
      FramesFit(objects, m, codec, CallId(m, trees, n, a), |Packs(m, trees[n])[a]|)
  }

  ghost predicate SlotOk(objects: Objects, m: Manifest, trees: seq<Candidate>, codec: Codec, n: nat, a: nat, j: nat)
    requires Materializable(objects, m, codec) && Packed(m, trees, n, a) && j < |Packs(m, trees[n])[a]|
  {
    SlotHarmless(objects, m, codec, CallId(m, trees, n, a), j, PageContent(objects, m, codec, Packs(m, trees[n])[a][j]))
  }

  /** Every page to be packed lands where no old frame shows, or shows its own bytes. */
  ghost predicate CallAgrees(objects: Objects, m: Manifest, trees: seq<Candidate>, codec: Codec)
    requires Materializable(objects, m, codec)
  {
    forall n: nat, a: nat, j: nat :: Packed(m, trees, n, a) && j < |Packs(m, trees[n])[a]| ==>
      SlotOk(objects, m, trees, codec, n, a, j)
  }

  ghost predicate CallHarmless(objects: Objects, m: Manifest, trees: seq<Candidate>, codec: Codec)
    requires Materializable(objects, m, codec)
  {
    CallFits(objects, m, trees, codec) && CallAgrees(objects, m, trees, codec)
  }

  // ---------- the state between two trees ----------

  /** Tree `i < n` packed group `g`. */
  ghost predicate Taken(m: Manifest, trees: seq<Candidate>, n: nat, g: nat)
    requires n <= |trees|
  {
    exists i: nat, a: nat :: i < n && Packed(m, trees, i, a) && CallId(m, trees, i, a) == g
  }

  ghost predicate Owned(m: Manifest, trees: seq<Candidate>, n: nat, g: nat)
    requires n <= |trees|
  {
    exists i: nat :: i < n && g in OwnIds(m, trees[i])
  }

  /** Group `g` of `m'` was packed from the cache. */
  ghost predicate IsPacked(m: Manifest, m': Manifest, objects': Objects, cache: Cache, codec: Codec, v: nat, g: nat,
                           pages: seq<nat>) {
    && g < |m'.groupPages| && KeyAt(m', g) == Some(PageGroup(g, v)) && PagesAt(m', g) == pages
    && (m.subPagesPerFrame > 0 ==> TableAt(m', g) == GroupTable(m, cache, codec, g, pages))
    && ObjectAt(objects', PageGroup(g, v)) == Some(GroupBlob(m, cache, codec, g, pages))
  }

  /** Groups not touched are as they were. */
  ghost predicate IsKept(m: Manifest, m': Manifest, g: nat) {
    KeyAt(m', g) == KeyAt(m, g) && PagesAt(m', g) == PagesAt(m, g) && TableAt(m', g) == TableAt(m, g)
  }

  ghost predicate Frame(m: Manifest, trees: seq<Candidate>, m': Manifest, n: nat)
    requires n <= |trees|
  {
    && SameFrame(m, m') && |m'.groupPages| == LenAt(m, trees, n)
    && forall l :: n <= l < |trees| ==> trees[l].root in m'.btrees && TreeIds(m', trees[l].root) == OwnIds(m, trees[l])
  }

  ghost predicate Groups(m: Manifest, trees: seq<Candidate>, m': Manifest, objects': Objects, cache: Cache,
                         codec: Codec, v: nat, n: nat)
    requires n <= |trees|
  {
    && (forall i: nat, a: nat :: i < n && Packed(m, trees, i, a) ==>
          IsPacked(m, m', objects', cache, codec, v, CallId(m, trees, i, a), Packs(m, trees[i])[a]))
    && (forall g: nat :: !Taken(m, trees, n, g) && !Owned(m, trees, n, g) ==> IsKept(m, m', g))
    && (forall g: nat :: !Taken(m, trees, n, g) && Owned(m, trees, n, g) ==> KeyAt(m', g).None?)
  }

  /** Uploads go under the ids taken, at the call's version. */
  ghost predicate Stores(m: Manifest, trees: seq<Candidate>, objects: Objects, objects': Objects, v: nat, n: nat)
    requires n <= |trees|
  {
    forall k: Key :: !(k.PageGroup? && k.version == v && Taken(m, trees, n, k.gid)) ==>
      ObjectAt(objects', k) == ObjectAt(objects, k)
  }

  // ---------- ids ----------

  lemma {:induction false} LenGrows(m: Manifest, trees: seq<Candidate>, i: nat, n: nat)
    requires i <= n <= |trees|
    ensures LenAt(m, trees, i) <= LenAt(m, trees, n)
    decreases n
  {
    hide Packs;
    if i < n {
      LenGrows(m, trees, i, n - 1);
      LengthGrows(LenAt(m, trees, n - 1), OwnIds(m, trees[n - 1]), |Packs(m, trees[n - 1])|);
    }
  }

  lemma {:induction false} FreshGrows(len: nat, a: nat, b: nat)
    requires a <= b
    ensures FreshId(len, a) <= FreshId(len, b)
  {
    if a < b {
      FreshGrows(len, a, b - 1);
    }
  }

  lemma IdFits(len: nat, prior: seq<nat>, n: nat, a: nat)
    requires a < n && forall i :: 0 <= i < |prior| ==> prior[i] < len
    ensures IdAt(len, prior, a) < LengthAfter(len, prior, n)
  {
    LengthGrows(len, prior, n);
    if a >= |prior| {
      FreshGrows(len, a - |prior|, n - 1 - |prior|);
    }
  }

  lemma OwnIsOld(m: Manifest, trees: seq<Candidate>, i: nat)
    requires Disjoint(m, trees) && i < |trees|
    ensures OwnGroups(m, OwnIds(m, trees[i])) && forall x :: 0 <= x < |OwnIds(m, trees[i])| ==>
              OwnIds(m, trees[i])[x] < |m.groupPages|
    ensures TreeIsKeyed(m, OwnIds(m, trees[i]))
  {
    hide KeyAt;
  }

  /** What tree `i` takes lies below the length tree `n > i` meets, and is its own or past the first manifest. */
  lemma TakenId(m: Manifest, trees: seq<Candidate>, i: nat, a: nat, n: nat)
    requires Disjoint(m, trees) && i < n <= |trees| && Packed(m, trees, i, a)
    ensures CallId(m, trees, i, a) < LenAt(m, trees, n)
    ensures CallId(m, trees, i, a) in OwnIds(m, trees[i]) || CallId(m, trees, i, a) >= |m.groupPages|
  {
    hide Disjoint, Packs, IdAt, LengthAfter;
    OwnIsOld(m, trees, i);
    assert LenAt(m, trees, i) >= |m.groupPages|;
    IdFits(LenAt(m, trees, i), OwnIds(m, trees[i]), |Packs(m, trees[i])|, a);
    LenGrows(m, trees, i + 1, n);
    OwnOrFresh(LenAt(m, trees, i), OwnIds(m, trees[i]), a);
  }

  lemma OwnOrFresh(len: nat, prior: seq<nat>, a: nat)
    ensures IdAt(len, prior, a) in prior || IdAt(len, prior, a) >= len
  {
  }

  /** No earlier tree owned or took what tree `n` owns. */
  lemma OwnIsUntouched(m: Manifest, trees: seq<Candidate>, n: nat, g: nat)
    requires Disjoint(m, trees) && n < |trees| && g in OwnIds(m, trees[n])
    ensures !Owned(m, trees, n, g) && !Taken(m, trees, n, g) && g < |m.groupPages|
  {
    OwnIsOld(m, trees, n);
    var ids := OwnIds(m, trees[n]);
    var x :| 0 <= x < |ids| && ids[x] == g;
    forall i: nat | i < n
      ensures g !in OwnIds(m, trees[i])
    {
      assert g in Elements(TreeIds(m, trees[n].root));
      assert Elements(TreeIds(m, trees[i].root)) !! Elements(TreeIds(m, trees[n].root));
    }
    forall i: nat, a: nat | i < n && Packed(m, trees, i, a)
      ensures CallId(m, trees, i, a) != g
    {
      TakenId(m, trees, i, a, n);
    }
  }

  // ---------- one more tree ----------

  ghost predicate Between(m: Manifest, trees: seq<Candidate>, objects: Objects, m': Manifest, objects': Objects,
                          cache: Cache, codec: Codec, v: nat, n: nat)
    requires n <= |trees|
  {
    && Frame(m, trees, m', n) && Groups(m, trees, m', objects', cache, codec, v, n)
    && Stores(m, trees, objects, objects', v, n) && UniquePages(m')
  }

  /** A tree meets its own groups as the first manifest lists them. */
  lemma PacksAsForeseen(m: Manifest, trees: seq<Candidate>, m': Manifest, objects': Objects, cache: Cache,
                        codec: Codec, v: nat, n: nat)
    requires Disjoint(m, trees) && n < |trees| && Frame(m, trees, m', n)
    requires Groups(m, trees, m', objects', cache, codec, v, n)
    ensures NewGroups(m', trees[n].root, trees[n].live) == Packs(m, trees[n])
    ensures TreeIsKeyed(m', TreeIds(m', trees[n].root))
  {
    var c, ids := trees[n], OwnIds(m, trees[n]);
    OwnIsOld(m, trees, n);
    hide Kept, PagesAt, KeyAt, TableAt, Disjoint, Groups, LenAt;
    RootIsThere(m, trees, n);
    forall g <- ids
      ensures PagesAt(m', g) == PagesAt(m, g) && KeyAt(m', g) == KeyAt(m, g)
    {
      OwnAsBefore(m, trees, m', objects', cache, codec, v, n, g);
    }
    assert forall i :: 0 <= i < |ids| ==> ids[i] in ids;
    SameKept(m, m', ids, c.live);
  }

  lemma OwnAsBefore(m: Manifest, trees: seq<Candidate>, m': Manifest, objects': Objects, cache: Cache, codec: Codec,
                    v: nat, n: nat, g: nat)
    requires Disjoint(m, trees) && n < |trees| && g in OwnIds(m, trees[n])
    requires Groups(m, trees, m', objects', cache, codec, v, n)
    ensures IsKept(m, m', g)
  {
    hide PagesAt, KeyAt, TableAt, Disjoint, Taken, Owned, IsPacked;
    OwnIsUntouched(m, trees, n, g);
  }

  lemma SameKept(m: Manifest, m': Manifest, ids: seq<nat>, live: set<nat>)
    requires forall g <- ids :: PagesAt(m', g) == PagesAt(m, g)
    ensures Kept(m', ids, live) == Kept(m, ids, live)
  {
    hide Kept, PagesAt;
    KeptPages(m, ids, live);
    KeptPages(m', ids, live);
    SameMembersSameList(Kept(m', ids, live), Kept(m, ids, live));
  }

  /** What a tree step does to every group, and the ids it takes. */
  lemma StepViews(x: TreeRun, cache: Cache, codec: Codec, v: nat)
    requires TreeStep(x.before, x.root, x.live, cache, codec, v, x.r)
    ensures |x.r.ids| == |NewGroups(x.before, x.root, x.live)|
    ensures forall a :: 0 <= a < |x.r.ids| ==>
              && x.r.ids[a] == IdAt(|x.before.groupPages|, TreeIds(x.before, x.root), a)
              && x.r.ids[a] < |x.r.m.groupPages|
              && KeyAt(x.r.m, x.r.ids[a]) == Some(PageGroup(x.r.ids[a], v))
              && PagesAt(x.r.m, x.r.ids[a]) == NewGroups(x.before, x.root, x.live)[a]
              && (x.before.subPagesPerFrame > 0 ==>
                    TableAt(x.r.m, x.r.ids[a]) ==
                    GroupTable(x.before, cache, codec, x.r.ids[a], NewGroups(x.before, x.root, x.live)[a]))
    ensures forall g: nat :: g !in x.r.ids && g !in TreeIds(x.before, x.root) ==> IsKept(x.before, x.r.m, g)
    ensures forall g: nat :: g !in x.r.ids && g in TreeIds(x.before, x.root) ==> KeyAt(x.r.m, g).None?
    ensures |x.before.groupPages| <= |x.r.m.groupPages|
  {
    hide NewGroups, KeyAt, PagesAt, TableAt, OwnGroups, UploadsFor, SameFrame, IdAt, LengthAfter, GroupTable;
    assert forall a :: 0 <= a < |x.r.ids| ==> x.r.ids[a] in x.r.ids;
  }

  ghost predicate NextTree(m: Manifest, trees: seq<Candidate>, objects': Objects, x: TreeRun, cache: Cache,
                           codec: Codec, v: nat, n: nat) {
    && Disjoint(m, trees) && n < |trees| && Frame(m, trees, x.before, n)
    && Groups(m, trees, x.before, objects', cache, codec, v, n)
    && x.root == trees[n].root && x.live == trees[n].live && TreeStep(x.before, x.root, x.live, cache, codec, v, x.r)
  }

  lemma IdsNow(m: Manifest, trees: seq<Candidate>, objects': Objects, x: TreeRun, cache: Cache, codec: Codec, v: nat,
               n: nat)
    requires NextTree(m, trees, objects', x, cache, codec, v, n)
    ensures NewGroups(x.before, x.root, x.live) == Packs(m, trees[n])
    ensures TreeIds(x.before, x.root) == OwnIds(m, trees[n])
    ensures |x.r.ids| == |Packs(m, trees[n])| && forall a :: 0 <= a < |x.r.ids| ==> x.r.ids[a] == CallId(m, trees, n, a)
    ensures forall g: nat :: Taken(m, trees, n + 1, g) <==> Taken(m, trees, n, g) || g in x.r.ids
    ensures forall g: nat :: Owned(m, trees, n + 1, g) <==> Owned(m, trees, n, g) || g in OwnIds(m, trees[n])
  {
    hide TreeStep, NewGroups, Packs, LenAt, KeyAt, PagesAt, TableAt, IdAt, Disjoint, OwnIds;
    PacksAsForeseen(m, trees, x.before, objects', cache, codec, v, n);
    StepViews(x, cache, codec, v);
    forall g: nat
      ensures Taken(m, trees, n + 1, g) <==> Taken(m, trees, n, g) || g in x.r.ids
    {
      TakenNext(m, trees, n, g, x.r.ids);
    }
  }

  lemma TakenNext(m: Manifest, trees: seq<Candidate>, n: nat, g: nat, ids: seq<nat>)
    requires n < |trees| && |ids| == |Packs(m, trees[n])| && forall a :: 0 <= a < |ids| ==>
               ids[a] == CallId(m, trees, n, a)
    ensures Taken(m, trees, n + 1, g) <==> Taken(m, trees, n, g) || g in ids
  {
    hide Packs, CallId;
    if g in ids {
      var a :| 0 <= a < |ids| && ids[a] == g;
      assert Packed(m, trees, n, a);
    }
    if Taken(m, trees, n + 1, g) {
      var i: nat, a: nat :| i < n + 1 && Packed(m, trees, i, a) && CallId(m, trees, i, a) == g;
      if i == n {
        assert ids[a] == g;
      }
    }
  }

  /** What earlier trees took, this tree neither owns nor takes. */
  lemma EarlierIsSafe(m: Manifest, trees: seq<Candidate>, n: nat, i: nat, a: nat, b: nat)
    requires Disjoint(m, trees) && n < |trees| && i < n && Packed(m, trees, i, a)
    ensures CallId(m, trees, i, a) !in OwnIds(m, trees[n]) && CallId(m, trees, i, a) != CallId(m, trees, n, b)
  {
    var g := CallId(m, trees, i, a);
    assert Taken(m, trees, n, g);
    if g in OwnIds(m, trees[n]) {
      OwnIsUntouched(m, trees, n, g);
    }
    hide Disjoint, Packs, LenAt, OwnIds;
    TakenId(m, trees, i, a, n);
    OwnOrFresh(LenAt(m, trees, n), OwnIds(m, trees[n]), b);
  }

  /** What an earlier tree packed stays packed. */
  lemma PackedStays(m: Manifest, trees: seq<Candidate>, objects': Objects, x: TreeRun, cache: Cache, codec: Codec,
                    v: nat, n: nat, i: nat, a: nat)
    requires NextTree(m, trees, objects', x, cache, codec, v, n) && i < n && Packed(m, trees, i, a)
    ensures IsPacked(m, x.r.m, After(objects', x.r), cache, codec, v, CallId(m, trees, i, a), Packs(m, trees[i])[a])
  {
    IdsNow(m, trees, objects', x, cache, codec, v, n);
    StepViews(x, cache, codec, v);
    UploadedObjects(objects', x.before, x.root, x.live, cache, codec, v, x.r);
    var g := CallId(m, trees, i, a);
    assert g !in OwnIds(m, trees[n]) by { EarlierIsSafe(m, trees, n, i, a, 0); }
    hide TreeStep, NewGroups, Packs, LenAt, KeyAt, PagesAt, TableAt, IdAt, Disjoint, OwnIds, CallId, After, ObjectAt,
         GroupBlob, GroupTable, Frame,
         Taken, Owned;
    forall b | 0 <= b < |x.r.ids|
      ensures x.r.ids[b] != g
    {
      EarlierIsSafe(m, trees, n, i, a, b);
    }
    assert IsKept(x.before, x.r.m, g);
  }

  lemma SameEncodings(m: Manifest, m': Manifest, cache: Cache, codec: Codec, g: nat, pages: seq<nat>)
    requires SameFrame(m, m')
    ensures GroupBlob(m', cache, codec, g, pages) == GroupBlob(m, cache, codec, g, pages)
    ensures GroupTable(m', cache, codec, g, pages) == GroupTable(m, cache, codec, g, pages)
  {
  }

  /** The tree's own new groups are packed. */
  lemma PackedNow(m: Manifest, trees: seq<Candidate>, objects': Objects, x: TreeRun, cache: Cache, codec: Codec,
                  v: nat, n: nat, a: nat)
    requires NextTree(m, trees, objects', x, cache, codec, v, n) && Packed(m, trees, n, a)
    ensures IsPacked(m, x.r.m, After(objects', x.r), cache, codec, v, CallId(m, trees, n, a), Packs(m, trees[n])[a])
  {
    IdsNow(m, trees, objects', x, cache, codec, v, n);
    StepViews(x, cache, codec, v);
    UploadedObjects(objects', x.before, x.root, x.live, cache, codec, v, x.r);
    SameEncodings(m, x.before, cache, codec, x.r.ids[a], Packs(m, trees[n])[a]);
    hide TreeStep, NewGroups, Packs, LenAt, KeyAt, PagesAt, TableAt, IdAt, Disjoint, OwnIds, CallId, After, ObjectAt,
         GroupBlob, GroupTable,
         Taken, Owned, Groups;
  }

  lemma FrameNext(m: Manifest, trees: seq<Candidate>, objects': Objects, x: TreeRun, cache: Cache, codec: Codec,
                  v: nat, n: nat)
    requires NextTree(m, trees, objects', x, cache, codec, v, n)
    ensures Frame(m, trees, x.r.m, n + 1)
  {
    PacksAsForeseen(m, trees, x.before, objects', cache, codec, v, n);
    StepFrame(x, cache, codec, v);
    hide TreeStep, NewGroups, Groups, LengthAfter;
  }

  lemma StepFrame(x: TreeRun, cache: Cache, codec: Codec, v: nat)
    requires TreeStep(x.before, x.root, x.live, cache, codec, v, x.r)
    ensures SameFrame(x.before, x.r.m)
    ensures |x.r.m.groupPages| ==
            LengthAfter(|x.before.groupPages|, TreeIds(x.before, x.root), |NewGroups(x.before, x.root, x.live)|)
    ensures x.r.m.btrees.Keys == x.before.btrees.Keys
    ensures forall root <- x.before.btrees.Keys :: root != x.root ==> TreeIds(x.r.m, root) == TreeIds(x.before, root)
  {
    hide NewGroups, KeyAt, PagesAt, TableAt, OwnGroups, UploadsFor, IdsByRule, IdsAssigned, LengthAfter;
  }

  lemma GroupsNext(m: Manifest, trees: seq<Candidate>, objects': Objects, x: TreeRun, cache: Cache, codec: Codec,
                   v: nat, n: nat)
    requires NextTree(m, trees, objects', x, cache, codec, v, n)
    ensures Groups(m, trees, x.r.m, After(objects', x.r), cache, codec, v, n + 1)
  {
    IdsNow(m, trees, objects', x, cache, codec, v, n);
    StepViews(x, cache, codec, v);
    forall i: nat, a: nat | i < n + 1 && Packed(m, trees, i, a)
      ensures IsPacked(m, x.r.m, After(objects', x.r), cache, codec, v, CallId(m, trees, i, a), Packs(m, trees[i])[a])
    {
      if i < n {
        PackedStays(m, trees, objects', x, cache, codec, v, n, i, a);
      } else {
        PackedNow(m, trees, objects', x, cache, codec, v, n, a);
      }
    }
    hide TreeStep, NewGroups, Packs, LenAt, KeyAt, PagesAt, TableAt, Disjoint, OwnIds, CallId, After, IsPacked,
         Packed, Taken, Owned, Frame;
    forall g: nat
      ensures !Taken(m, trees, n + 1, g) && !Owned(m, trees, n + 1, g) ==> IsKept(m, x.r.m, g)
      ensures !Taken(m, trees, n + 1, g) && Owned(m, trees, n + 1, g) ==> KeyAt(x.r.m, g).None?
    {
      if !Taken(m, trees, n + 1, g) && g !in OwnIds(m, trees[n]) {
        assert IsKept(x.before, x.r.m, g);
      }
    }
  }

  lemma StoresNext(m: Manifest, trees: seq<Candidate>, objects: Objects, objects': Objects, x: TreeRun, cache: Cache,
                   codec: Codec, v: nat, n: nat)
    requires NextTree(m, trees, objects', x, cache, codec, v, n) && Stores(m, trees, objects, objects', v, n)
    ensures Stores(m, trees, objects, After(objects', x.r), v, n + 1)
  {
    IdsNow(m, trees, objects', x, cache, codec, v, n);
    UploadedObjects(objects', x.before, x.root, x.live, cache, codec, v, x.r);
    hide TreeStep, NewGroups, Packs, LenAt, KeyAt, PagesAt, TableAt, Disjoint, OwnIds, CallId, After, Taken, Owned,
         Frame, Groups, ObjectAt, GroupBlob;
  }

  lemma BetweenNext(m: Manifest, trees: seq<Candidate>, objects: Objects, objects': Objects, x: TreeRun, cache: Cache,
                    codec: Codec, v: nat, n: nat)
    requires Disjoint(m, trees) && n < |trees| && Between(m, trees, objects, x.before, objects', cache, codec, v, n)
    requires x.root == trees[n].root && x.live == trees[n].live
    requires TreeStep(x.before, x.root, x.live, cache, codec, v, x.r)
    ensures Between(m, trees, objects, x.r.m, After(objects', x.r), cache, codec, v, n + 1)
  {
    hide TreeStep, Disjoint, Frame, Groups, Stores, UniquePages, TreeIsKeyed;
    FrameNext(m, trees, objects', x, cache, codec, v, n);
    GroupsNext(m, trees, objects', x, cache, codec, v, n);
    StoresNext(m, trees, objects, objects', x, cache, codec, v, n);
    PacksAsForeseen(m, trees, x.before, objects', cache, codec, v, n);
    UniqueStep(x.before, x.root, x.live, cache, codec, v, x.r);
  }

  lemma Begin(m: Manifest, trees: seq<Candidate>, objects: Objects, cache: Cache, codec: Codec, v: nat)
    requires Disjoint(m, trees) && UniquePages(m)
    ensures Between(m, trees, objects, m, objects, cache, codec, v, 0)
  {
    hide UniquePages, KeyAt, PagesAt, TableAt, Packs;
  }

  /** The state after the first `n` trees of a call. */
  lemma {:induction false} BetweenAt(m: Manifest, trees: seq<Candidate>, runs: seq<TreeRun>, objects: Objects,
                                     cache: Cache, codec: Codec, v: nat, n: nat)
    requires Disjoint(m, trees) && UniquePages(m) && Calls(m, trees, runs, cache, codec, v) && n <= |runs|
    ensures Between(m, trees, objects, ManifestAt(m, runs, n), objects + AllUploads(runs[..n]), cache, codec, v, n)
  {
    hide TreeStep, Disjoint, Between, UniquePages;
    if n == 0 {
      Begin(m, trees, objects, cache, codec, v);
      assert runs[..0] == [] && objects + map[] == objects;
    } else {
      BetweenAt(m, trees, runs, objects, cache, codec, v, n - 1);
      assert RunAt(m, runs, cache, codec, v, n - 1);
      BetweenNext(m, trees, objects, objects + AllUploads(runs[..n - 1]), runs[n - 1], cache, codec, v, n - 1);
      UploadsNext(objects, runs, n);
    }
  }

  lemma {:induction false} UploadsNext(objects: Objects, runs: seq<TreeRun>, n: nat)
    requires 0 < n <= |runs|
    ensures objects + AllUploads(runs[..n]) == After(objects + AllUploads(runs[..n - 1]), runs[n - 1].r)
  {
    hide UploadMap;
    assert runs[..n][..n - 1] == runs[..n - 1];
  }

  // ---------- the whole call ----------

  /**
   What a call may be asked of: a sane manifest with disjoint trees, a lawful codec, a cache that
   agrees with the store.
   */
  ghost predicate CanCall(objects: Objects, m: Manifest, trees: seq<Candidate>, cache: Cache, codec: Codec) {
    && Sane(objects, m, codec) && Lawful(codec, m.pageSize) && Disjoint(m, trees)
    && forall n :: 0 <= n < |trees| ==> CacheAgrees(objects, m, codec, cache, KeptOf(m, trees[n].root, trees[n].live))
  }

  /** `m'` with `objects'` is what the call made. */
  ghost predicate Made(objects: Objects, m: Manifest, trees: seq<Candidate>, cache: Cache, codec: Codec, v: nat,
                       m': Manifest, objects': Objects) {
    CanCall(objects, m, trees, cache, codec) && Between(m, trees, objects, m', objects', cache, codec, v, |trees|)
  }

  lemma MadeByCall(objects: Objects, m: Manifest, trees: seq<Candidate>, runs: seq<TreeRun>, cache: Cache,
                   codec: Codec, v: nat, m': Manifest)
    requires CanCall(objects, m, trees, cache, codec) && Chain(m, runs, cache, codec, v, m') && |runs| == |trees|
    requires forall n :: 0 <= n < |runs| ==> runs[n].root == trees[n].root && runs[n].live == trees[n].live
    ensures Made(objects, m, trees, cache, codec, v, m', objects + AllUploads(runs))
  {
    hide Chain, Calls, Between, Materializable, PageContent, Lawful, WellKeyed, UniquePages, Disjoint;
    CallsOf(m, trees, runs, cache, codec, v, m');
    BetweenAt(m, trees, runs, objects, cache, codec, v, |runs|);
    assert runs[..|runs|] == runs;
  }

  /** A page to be packed is in range, and cached as stored. */
  lemma PackedPage(objects: Objects, m: Manifest, trees: seq<Candidate>, cache: Cache, codec: Codec, n: nat, a: nat)
    requires CanCall(objects, m, trees, cache, codec) && Packed(m, trees, n, a)
    ensures var pages := Packs(m, trees[n])[a];
            && pages != [] && StrictlyAscending(pages)
            && forall j :: 0 <= j < |pages| ==>
                 && pages[j] in KeptOf(m, trees[n].root, trees[n].live) && pages[j] < m.pageCount
                 && cache(pages[j]) == Some(PageContent(objects, m, codec, pages[j])) && |cache(pages[j]).value| ==
                      m.pageSize
  {
    var c := trees[n];
    var kept, pages := KeptOf(m, c.root, c.live), Packs(m, c)[a];
    KeptPages(m, TreeIds(m, c.root), c.live);
    ChunkAscends(kept, m.pagesPerGroup, a);
    assert CacheAgrees(objects, m, codec, cache, kept);
    hide Kept, ChunkPages, PageContent, Materializable, Disjoint, Lawful, UniquePages, WellKeyed, Sane;
    forall j | 0 <= j < |pages|
      ensures pages[j] < m.pageCount && cache(pages[j]) == Some(PageContent(objects, m, codec, pages[j]))
      ensures |cache(pages[j]).value| == m.pageSize
    {
      assert pages[j] in kept;
      var x :| 0 <= x < |kept| && kept[x] == pages[j];
      ContentIsFull(objects, m, codec, pages[j]);
    }
  }

  lemma SameFrames(objects: Objects, m: Manifest, trees: seq<Candidate>, objects': Objects, m': Manifest,
                   codec: Codec, v: nat, n: nat, g: nat)
    requires n <= |trees| && SameFrame(m, m') && WellKeyed(m) && Stores(m, trees, objects, objects', v, n)
    ensures SameOverrides(objects, m, objects', m', codec, g)
  {
    hide ObjectAt, KeyAt, Taken;
    forall f <- OverridesAt(m, g).Keys
      ensures FrameBytes(objects', m', codec, g, f) == FrameBytes(objects, m, codec, g, f)
    {
      assert OverridesAt(m, g)[f] in m.subframeOverrides[g].Values;
    }
  }

  lemma MadeParts(objects: Objects, m: Manifest, trees: seq<Candidate>, cache: Cache, codec: Codec, v: nat,
                  m': Manifest, objects': Objects)
    requires Made(objects, m, trees, cache, codec, v, m', objects')
    ensures Materializable(objects, m, codec) && UniquePages(m) && WellKeyed(m) && Lawful(codec, m.pageSize)
    ensures Disjoint(m, trees)
    ensures SameFrame(m, m') && UniquePages(m') && m.pageCount > 0 && m.pageSize > 0
    ensures CanCall(objects, m, trees, cache, codec)
    ensures Groups(m, trees, m', objects', cache, codec, v, |trees|) && Stores(m, trees, objects, objects', v, |trees|)
  {
  }

  lemma PackedIsNew(objects: Objects, m: Manifest, trees: seq<Candidate>, cache: Cache, codec: Codec, v: nat,
                    m': Manifest, objects': Objects,
                    n: nat, a: nat)
    requires Made(objects, m, trees, cache, codec, v, m', objects') && Packed(m, trees, n, a)
    ensures IsNewGroup(m, cache, codec, v, m', objects', CallId(m, trees, n, a), Packs(m, trees[n])[a])
    ensures SameOverrides(objects, m, objects', m', codec, CallId(m, trees, n, a)) && Packs(m, trees[n])[a] != []
  {
    hide Made, CanCall, Disjoint, Materializable, UniquePages, WellKeyed, Lawful, Stores, LenAt, OwnIds, Packs,
         CallId, KeyAt, PagesAt, TableAt, GroupBlob,
         GroupTable, PageContent, Kept, SameOverrides, Taken, Owned, StrictlyAscending;
    MadeParts(objects, m, trees, cache, codec, v, m', objects');
    PackedPage(objects, m, trees, cache, codec, n, a);
    SameFrames(objects, m, trees, objects', m', codec, v, |trees|, CallId(m, trees, n, a));
  }

  /** A packed group materializes exactly if the old frames on its id fit it. */
  lemma PackedOkIff(objects: Objects, m: Manifest, trees: seq<Candidate>, cache: Cache, codec: Codec, v: nat,
                    m': Manifest, objects': Objects,
                    n: nat, a: nat)
    requires Made(objects, m, trees, cache, codec, v, m', objects') && Packed(m, trees, n, a)
    ensures GroupOk(objects', m', codec, CallId(m, trees, n, a)) <==>
            FramesFit(objects, m, codec, CallId(m, trees, n, a), |Packs(m, trees[n])[a]|)
  {
    var g, pages := CallId(m, trees, n, a), Packs(m, trees[n])[a];
    PackedIsNew(objects, m, trees, cache, codec, v, m', objects', n, a);
    hide Made, GroupOk, FramesFit, SameOverrides, BaseBytes, Flat, GroupBlob, GroupTable, PagesAt, KeyAt, TableAt,
         Packs, CallId, Lawful, StrictlyAscending;
    MadeParts(objects, m, trees, cache, codec, v, m', objects');
    NewGroupBase(m, cache, codec, v, m', objects', g, pages);
    GroupOkIffFramesFit(objects, m, objects', m', codec, g);
  }

  /** A group no tree packed is retired, or contributes what it did. */
  lemma OtherGroup(objects: Objects, m: Manifest, trees: seq<Candidate>, cache: Cache, codec: Codec, v: nat,
                   m': Manifest, objects': Objects, g: nat)
    requires Made(objects, m, trees, cache, codec, v, m', objects') && !Taken(m, trees, |trees|, g)
    ensures GroupOk(objects', m', codec, g) && GroupOk(objects, m, codec, g)
    ensures KeyAt(m', g).Some? ==>
              && KeyAt(m, g).Some? && PagesAt(m', g) == PagesAt(m, g)
              && forall i :: 0 <= i < |PagesAt(m, g)| ==>
                   SlotWrite(objects', m', codec, g, i) == SlotWrite(objects, m, codec, g, i)
  {
    MadeParts(objects, m, trees, cache, codec, v, m', objects');
    assert GroupOk(objects, m, codec, g);
    if Owned(m, trees, |trees|, g) {
      assert KeyAt(m', g).None?;
    } else {
      hide Made, Taken, Owned, PagesAt, TableAt, SlotWrite, GroupOk, UniquePages, Materializable, Lawful, Disjoint,
           CanCall;
      assert IsKept(m, m', g);
      SameFrames(objects, m, trees, objects', m', codec, v, |trees|, g);
      SameObjectsAt(objects, m, objects', m', codec, g, v, trees);
      UntouchedGroup(objects, m, objects', m', codec, g);
    }
  }

  lemma SameObjectsAt(objects: Objects, m: Manifest, objects': Objects, m': Manifest, codec: Codec, g: nat, v: nat,
                      trees: seq<Candidate>)
    requires WellKeyed(m) && Stores(m, trees, objects, objects', v, |trees|) && !Taken(m, trees, |trees|, g)
    ensures KeyAt(m, g).Some? ==> ObjectAt(objects', KeyAt(m, g).value) == ObjectAt(objects, KeyAt(m, g).value)
    ensures forall f <- OverridesAt(m, g).Keys ::
              ObjectAt(objects', OverridesAt(m, g)[f]) == ObjectAt(objects, OverridesAt(m, g)[f])
  {
    hide Taken, ObjectAt;
    forall f <- OverridesAt(m, g).Keys
      ensures ObjectAt(objects', OverridesAt(m, g)[f]) == ObjectAt(objects, OverridesAt(m, g)[f])
    {
      assert OverridesAt(m, g)[f] in m.subframeOverrides[g].Values;
    }
  }

  /** The database still materializes after the call exactly if the old frames fit what is packed under their ids. */
  lemma MaterializesIffCallFits(objects: Objects, m: Manifest, trees: seq<Candidate>, cache: Cache, codec: Codec,
                                v: nat, m': Manifest, objects': Objects)
    requires Made(objects, m, trees, cache, codec, v, m', objects')
    ensures Materializable(objects', m', codec) <==> CallFits(objects, m, trees, codec)
  {
    hide Made, GroupOk, FramesFit, CallId, Packs, CanCall, Disjoint, Groups, Stores, WellKeyed, UniquePages, Lawful;
    assert m.pageCount > 0 && m.pageSize > 0 && SameFrame(m, m') by {
      MadeParts(objects, m, trees, cache, codec, v, m', objects');
    }
    forall n: nat, a: nat | Packed(m, trees, n, a)
      ensures GroupOk(objects', m', codec, CallId(m, trees, n, a)) <==>
              FramesFit(objects, m, codec, CallId(m, trees, n, a), |Packs(m, trees[n])[a]|)
    {
      PackedOkIff(objects, m, trees, cache, codec, v, m', objects', n, a);
    }
    if CallFits(objects, m, trees, codec) {
      forall g: nat
        ensures GroupOk(objects', m', codec, g)
      {
        if !Taken(m, trees, |trees|, g) {
          OtherGroup(objects, m, trees, cache, codec, v, m', objects', g);
        }
      }
    }
  }

  /** A packed page shows its old bytes exactly if its slot is harmless. */
  lemma PackedSlotIff(objects: Objects, m: Manifest, trees: seq<Candidate>, cache: Cache, codec: Codec, v: nat,
                      m': Manifest, objects': Objects,
                      n: nat, a: nat, j: nat)
    requires Made(objects, m, trees, cache, codec, v, m', objects') && Packed(m, trees, n, a)
    requires j < |Packs(m, trees[n])[a]|
    requires Materializable(objects, m, codec) && Materializable(objects', m', codec)
    ensures var p := Packs(m, trees[n])[a][j];
            && Located(m', p, CallId(m, trees, n, a), j) && Listed(m, p)
            && (PageContent(objects', m', codec, p) == PageContent(objects, m, codec, p) <==>
                  SlotOk(objects, m, trees, codec, n, a, j))
  {
    var g, pages := CallId(m, trees, n, a), Packs(m, trees[n])[a];
    PackedIsNew(objects, m, trees, cache, codec, v, m', objects', n, a);
    assert Located(m', pages[j], g, j);
    hide Made, SameOverrides, PagesAt, KeyAt, TableAt, Packs, CallId, Lawful, StrictlyAscending, CanCall, Disjoint,
         UniquePages, WellKeyed, Groups, Stores,
         PageContent, SlotWrite, OrZeros, IsNewGroup, SlotHarmless;
    MadeParts(objects, m, trees, cache, codec, v, m', objects');
    PackedPage(objects, m, trees, cache, codec, n, a);
    PackedWasListed(objects, m, trees, cache, codec, n, pages[j]);
    ContentAt(objects', m', codec, pages[j], g, j);
    SlotKeepsBytesIff(objects, m, cache, codec, v, m', objects', g, pages, j);
  }

  lemma PackedWasListed(objects: Objects, m: Manifest, trees: seq<Candidate>, cache: Cache, codec: Codec, n: nat,
                        p: nat)
    requires CanCall(objects, m, trees, cache, codec) && n < |trees| && trees[n].root in m.btrees
    requires p in KeptOf(m, trees[n].root, trees[n].live)
    ensures Listed(m, p)
  {
    OwnIsOld(m, trees, n);
    hide Kept, CanCall, Disjoint, Located;
    var g, i := KeptWasLocated(m, trees[n].root, trees[n].live, p);
  }

  /** A page that is not packed keeps its place and its bytes. */
  lemma OtherPage(objects: Objects, m: Manifest, trees: seq<Candidate>, cache: Cache, codec: Codec, v: nat,
                  m': Manifest, objects': Objects,
                  p: nat, g: nat, i: nat)
    requires Made(objects, m, trees, cache, codec, v, m', objects') && Materializable(objects, m, codec)
    requires Materializable(objects', m', codec)
    requires Located(m', p, g, i) && !Taken(m, trees, |trees|, g)
    ensures Located(m, p, g, i) && PageContent(objects', m', codec, p) == PageContent(objects, m, codec, p)
  {
    OtherGroup(objects, m, trees, cache, codec, v, m', objects', g);
    hide Made, Taken, PageContent, SlotWrite, GroupOk, UniquePages, PagesAt, KeyAt, Groups, Stores, WellKeyed, Lawful,
         CanCall, Disjoint;
    MadeParts(objects, m, trees, cache, codec, v, m', objects');
    ContentAt(objects', m', codec, p, g, i);
    ContentAt(objects, m, codec, p, g, i);
  }

  ghost predicate MeaningKept(objects: Objects, m: Manifest, objects': Objects, m': Manifest, codec: Codec)
    requires Materializable(objects, m, codec)
  {
    Materializable(objects', m', codec) && SameMeaning(objects, m, objects', m', codec)
  }

  /**
   A whole call keeps the meaning of a manifest with disjoint trees if and only if, before the call, the
   override frames on the ids it will use are harmless.
   */
  lemma CallKeepsMeaningIff(objects: Objects, m: Manifest, trees: seq<Candidate>, runs: seq<TreeRun>, cache: Cache,
                            codec: Codec, v: nat, m': Manifest)
    requires CanCall(objects, m, trees, cache, codec) && Chain(m, runs, cache, codec, v, m') && |runs| == |trees|
    requires forall n :: 0 <= n < |runs| ==> runs[n].root == trees[n].root && runs[n].live == trees[n].live
    ensures MeaningKept(objects, m, objects + AllUploads(runs), m', codec) <==> CallHarmless(objects, m, trees, codec)
  {
    var objects' := objects + AllUploads(runs);
    MadeByCall(objects, m, trees, runs, cache, codec, v, m');
    assert Materializable(objects, m, codec);
    hide Made, CanCall, Chain, AllUploads, Materializable, CallFits, CallAgrees, SameMeaning;
    MaterializesIffCallFits(objects, m, trees, cache, codec, v, m', objects');
    if Materializable(objects', m', codec) {
      if CallAgrees(objects, m, trees, codec) {
        AgreesKeeps(objects, m, trees, cache, codec, v, m', objects');
      }
      if SameMeaning(objects, m, objects', m', codec) {
        KeepsAgrees(objects, m, trees, cache, codec, v, m', objects');
      }
    }
  }

  lemma AgreesKeeps(objects: Objects, m: Manifest, trees: seq<Candidate>, cache: Cache, codec: Codec, v: nat,
                    m': Manifest, objects': Objects)
    requires Made(objects, m, trees, cache, codec, v, m', objects') && Materializable(objects, m, codec)
    requires Materializable(objects', m', codec)
    requires CallAgrees(objects, m, trees, codec)
    ensures SameMeaning(objects, m, objects', m', codec)
  {
    hide Made, PageContent, PagesAt, KeyAt, CallId, Packs, SlotOk, Materializable;
    forall p: nat | Listed(m', p)
      ensures Listed(m, p) && PageContent(objects', m', codec, p) == PageContent(objects, m, codec, p)
    {
      var g: nat, i: nat :| Located(m', p, g, i);
      if Taken(m, trees, |trees|, g) {
        var n: nat, a: nat :| n < |trees| && Packed(m, trees, n, a) && CallId(m, trees, n, a) == g;
        PackedPlace(objects, m, trees, cache, codec, v, m', objects', n, a);
        PackedSlotIff(objects, m, trees, cache, codec, v, m', objects', n, a, i);
      } else {
        OtherPage(objects, m, trees, cache, codec, v, m', objects', p, g, i);
      }
    }
  }

  lemma PackedPlace(objects: Objects, m: Manifest, trees: seq<Candidate>, cache: Cache, codec: Codec, v: nat,
                    m': Manifest, objects': Objects,
                    n: nat, a: nat)
    requires Made(objects, m, trees, cache, codec, v, m', objects') && Packed(m, trees, n, a)
    ensures PagesAt(m', CallId(m, trees, n, a)) == Packs(m, trees[n])[a]
  {
    PackedIsNew(objects, m, trees, cache, codec, v, m', objects', n, a);
  }

  lemma KeepsAgrees(objects: Objects, m: Manifest, trees: seq<Candidate>, cache: Cache, codec: Codec, v: nat,
                    m': Manifest, objects': Objects)
    requires Made(objects, m, trees, cache, codec, v, m', objects') && Materializable(objects, m, codec)
    requires Materializable(objects', m', codec)
    requires SameMeaning(objects, m, objects', m', codec)
    ensures CallAgrees(objects, m, trees, codec)
  {
    hide Made, PageContent, PagesAt, KeyAt, CallId, Packs, SlotOk, Materializable, Located;
    forall n: nat, a: nat, j: nat | Packed(m, trees, n, a) && j < |Packs(m, trees[n])[a]|
      ensures SlotOk(objects, m, trees, codec, n, a, j)
    {
      PackedSlotIff(objects, m, trees, cache, codec, v, m', objects', n, a, j);
      assert Listed(m', Packs(m, trees[n])[a][j]);
    }
  }

  // ---------- what the store's runs use ----------

  ghost function TreesOf(runs: seq<TreeRun>): (trees: seq<Candidate>)
    ensures |trees| == |runs|
    ensures forall n :: 0 <= n < |runs| ==> trees[n] == Candidate(runs[n].root, runs[n].live)
  {
    seq(|runs|, n requires 0 <= n < |runs| => Candidate(runs[n].root, runs[n].live))
  }

  /**
   The trees named are distinct, their live pages in range and cached as stored, and the override
   frames on the ids the call will use are harmless.
   */
  ghost predicate Eligible(objects: Objects, m0: Manifest, runs: seq<TreeRun>, cache: Cache, codec: Codec)
    requires Materializable(objects, m0, codec)
  {
    && DistinctRoots(runs) && CallHarmless(objects, m0, TreesOf(runs), codec)
    && (forall n :: 0 <= n < |runs| ==> forall p <- runs[n].live ::
          Listed(m0, p) ==> p < m0.pageCount && cache(p) == Some(PageContent(objects, m0, codec, p)))
  }

  ghost predicate ChainInv(objects: Objects, m0: Manifest, runs: seq<TreeRun>, codec: Codec, v: nat, m: Manifest)
    requires Materializable(objects, m0, codec)
  {
    var after := objects + AllUploads(runs);
    Sane(after, m, codec) && SameMeaning(objects, m0, after, m, codec) && Books(m0, runs, v, m)
  }

  lemma {:induction false} RootsStay(m0: Manifest, trees: seq<Candidate>, runs: seq<TreeRun>, cache: Cache,
                                     codec: Codec, v: nat, n: nat)
    requires Calls(m0, trees, runs, cache, codec, v) && n <= |runs|
    ensures ManifestAt(m0, runs, n).btrees.Keys == m0.btrees.Keys
    ensures ManifestAt(m0, runs, n).pagesPerGroup == m0.pagesPerGroup
  {
    hide TreeStep;
    if n > 0 {
      RootsStay(m0, trees, runs, cache, codec, v, n - 1);
      assert RunAt(m0, runs, cache, codec, v, n - 1);
      StepFrame(runs[n - 1], cache, codec, v);
    }
  }

  lemma {:induction false} CallIsDisjoint(m0: Manifest, runs: seq<TreeRun>, cache: Cache, codec: Codec, v: nat,
                                          m: Manifest)
    requires Chain(m0, runs, cache, codec, v, m) && DistinctRoots(runs) && TreesOwnGroups(m0) && !m0.positional
    requires runs != []
    ensures Disjoint(m0, TreesOf(runs))
  {
    var trees := TreesOf(runs);
    CallsOf(m0, trees, runs, cache, codec, v, m);
    forall n | 0 <= n < |trees|
      ensures trees[n].root in m0.btrees && m0.pagesPerGroup > 0
    {
      RootsStay(m0, trees, runs, cache, codec, v, n);
      assert RunAt(m0, runs, cache, codec, v, n);
    }
    hide Chain, TreesOwnGroups;
    assert trees[0].root in m0.btrees;
  }

  lemma CacheOfCall(objects: Objects, m0: Manifest, runs: seq<TreeRun>, cache: Cache, codec: Codec, n: nat)
    requires Materializable(objects, m0, codec) && Eligible(objects, m0, runs, cache, codec)
    requires Disjoint(m0, TreesOf(runs)) && n < |runs|
    ensures CacheAgrees(objects, m0, codec, cache, KeptOf(m0, runs[n].root, runs[n].live))
  {
    var root, live := runs[n].root, runs[n].live;
    OwnIsOld(m0, TreesOf(runs), n);
    assert TreesOf(runs)[n].root in m0.btrees;
    var pages := KeptOf(m0, root, live);
    hide PageContent, Kept, Materializable, CallHarmless, Disjoint, Located;
    forall i | 0 <= i < |pages|
      ensures pages[i] < m0.pageCount && cache(pages[i]) == Some(PageContent(objects, m0, codec, pages[i]))
    {
      assert pages[i] in pages;
      var g, x := KeptWasLocated(m0, root, live, pages[i]);
      assert Listed(m0, pages[i]);
    }
  }

  lemma MadeIsWellKeyed(objects: Objects, m: Manifest, trees: seq<Candidate>, cache: Cache, codec: Codec, v: nat,
                        m': Manifest, objects': Objects)
    requires Made(objects, m, trees, cache, codec, v, m', objects')
    ensures WellKeyed(m')
  {
    MadeParts(objects, m, trees, cache, codec, v, m', objects');
    hide Made, CanCall, Disjoint, UniquePages, Materializable, Lawful, Stores, PagesAt, TableAt, CallId, Packs,
         GroupBlob, GroupTable, KeyAt;
    forall g: nat | KeyAt(m', g).Some?
      ensures KeyAt(m', g).value.PageGroup? && KeyAt(m', g).value.gid == g
    {
      if Taken(m, trees, |trees|, g) {
        var n: nat, a: nat :| n < |trees| && Packed(m, trees, n, a) && CallId(m, trees, n, a) == g;
        assert IsPacked(m, m', objects', cache, codec, v, g, Packs(m, trees[n])[a]);
      } else {
        assert IsKept(m, m', g);
      }
    }
  }

  /** A call over any number of eligible trees keeps every listed page's bytes and the bookkeeping. */
  lemma {:induction false} CallKeepsMeaning(objects: Objects, m0: Manifest, runs: seq<TreeRun>, cache: Cache,
                                            codec: Codec, v: nat, m: Manifest)
    requires Sane(objects, m0, codec) && Lawful(codec, m0.pageSize) && TreesOwnGroups(m0)
    requires Chain(m0, runs, cache, codec, v, m) && Eligible(objects, m0, runs, cache, codec)
    ensures ChainInv(objects, m0, runs, codec, v, m)
  {
    CallKeepsBooks(m0, runs, cache, codec, v, m);
    if runs == [] {
      assert objects + map[] == objects;
    } else {
      CallIsDisjoint(m0, runs, cache, codec, v, m);
      EligibleCall(objects, m0, runs, cache, codec);
      hide Chain, CallHarmless, TreesOwnGroups, Books, UniquePages, WellKeyed, Materializable, AllUploads, CanCall;
      var trees := TreesOf(runs);
      MadeByCall(objects, m0, trees, runs, cache, codec, v, m);
      MadeIsWellKeyed(objects, m0, trees, cache, codec, v, m, objects + AllUploads(runs));
      MadeParts(objects, m0, trees, cache, codec, v, m, objects + AllUploads(runs));
      CallKeepsMeaningIff(objects, m0, trees, runs, cache, codec, v, m);
    }
  }

  lemma EligibleCall(objects: Objects, m0: Manifest, runs: seq<TreeRun>, cache: Cache, codec: Codec)
    requires Sane(objects, m0, codec) && Lawful(codec, m0.pageSize) && Disjoint(m0, TreesOf(runs))
    requires Eligible(objects, m0, runs, cache, codec)
    ensures CanCall(objects, m0, TreesOf(runs), cache, codec)
  {
    hide CallHarmless, Disjoint, PageContent, Kept, CacheAgrees, Lawful, UniquePages, WellKeyed, Materializable;
    forall n | 0 <= n < |runs|
      ensures TreesOf(runs)[n].root in m0.btrees
      ensures CacheAgrees(objects, m0, codec, cache, KeptOf(m0, runs[n].root, runs[n].live))
    {
      RootIsThere(m0, TreesOf(runs), n);
      CacheOfCall(objects, m0, runs, cache, codec, n);
    }
  }

  lemma RootIsThere(m: Manifest, trees: seq<Candidate>, n: nat)
    requires Disjoint(m, trees) && n < |trees|
    ensures trees[n].root in m.btrees
  {
  }
}
