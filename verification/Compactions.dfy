/**
 One `compact` call (src/tiered/bench.rs:549-715): several trees in turn, each from the manifest
 the previous one left, all uploads under one next version, one list of replaced keys.
 */
module Compactions {
  import opened Common
  import opened StoreKeys
  import opened Tiered
  import opened Compaction
  import opened CompactTree
  import opened CompactionTheorems
  import opened Graphs

  /** One tree of a call: the manifest it started from, its walked pages, its result. */
  datatype TreeRun = TreeRun(before: Manifest, root: nat, live: set<nat>, r: TreeResult)

  /** The trees `runs`, in order, took `m0` to `m`. */
  ghost predicate Chain(m0: Manifest, runs: seq<TreeRun>, cache: Cache, codec: Codec, v: nat, m: Manifest) {
    if runs == [] then m == m0
    else
      var last := runs[|runs| - 1];
      && Chain(m0, runs[..|runs| - 1], cache, codec, v, last.before)
      && TreeStep(last.before, last.root, last.live, cache, codec, v, last.r)
      && m == last.r.m
  }

  ghost function AllUploads(runs: seq<TreeRun>): Objects {
    if runs == [] then map[] else AllUploads(runs[..|runs| - 1]) + UploadMap(runs[|runs| - 1].r.uploads)
  }

  ghost function KeySet(keys: seq<Key>): set<Key> { set k | k in keys }

  ghost function AllReplaced(runs: seq<TreeRun>): set<Key> {
    if runs == [] then {} else AllReplaced(runs[..|runs| - 1]) + KeySet(runs[|runs| - 1].r.replaced)
  }

  ghost function Roots(runs: seq<TreeRun>): set<nat> { set x <- runs :: x.root }

  /** Group ids the trees gave up or took. */
  ghost function Touched(runs: seq<TreeRun>): set<nat> {
    if runs == [] then {}
    else
      var last := runs[|runs| - 1];
      Touched(runs[..|runs| - 1]) + Elements(last.r.ids) +
      if last.root in last.before.btrees then Elements(TreeIds(last.before, last.root)) else {}
  }

  // ---------- what a manifest must offer ----------

  /** Trees own disjoint groups, each with an object. */
  ghost predicate TreesOwnGroups(m: Manifest) {
    && (forall root <- m.btrees.Keys :: OwnGroups(m, TreeIds(m, root)) && TreeIsKeyed(m, TreeIds(m, root)))
    && (forall a <- m.btrees.Keys, b <- m.btrees.Keys :: a != b ==> Elements(TreeIds(m, a)) !! Elements(TreeIds(m, b)))
  }

  /** No group key is from a later version. */
  ghost predicate KeysUpTo(m: Manifest, v: nat) {
    forall g: nat :: KeyAt(m, g).Some? ==> KeyAt(m, g).value.PageGroup? && KeyAt(m, g).value.version <= v
  }

  // ---------- the invariant along a call ----------

  /** Untouched groups keep their keys; touched ones have a key of the new version or none. */
  ghost predicate KeysMoved(m0: Manifest, touched: set<nat>, v: nat, m: Manifest) {
    && (forall g <- touched :: g < |m.groupPages| && (KeyAt(m, g).None? || KeyAt(m, g) == Some(PageGroup(g, v))))
    && (forall g: nat :: g !in touched ==> KeyAt(m, g) == KeyAt(m0, g))
  }

  ghost predicate RestUntouched(m0: Manifest, roots: set<nat>, touched: set<nat>, m: Manifest) {
    && m.btrees.Keys == m0.btrees.Keys
    && forall root <- m0.btrees.Keys :: root !in roots ==>
         m.btrees[root] == m0.btrees[root] && Elements(TreeIds(m0, root)) !! touched
  }

  /** The replaced keys are exactly those the touched groups had. */
  ghost predicate ReplacedAreOld(m0: Manifest, touched: set<nat>, replaced: set<Key>) {
    forall k: Key :: k in replaced <==> exists g <- touched :: KeyAt(m0, g) == Some(k)
  }

  ghost predicate SameMeaning(objects0: Objects, m0: Manifest, objects: Objects, m: Manifest, codec: Codec)
    requires Materializable(objects0, m0, codec) && Materializable(objects, m, codec)
  {
    forall p: nat :: Listed(m, p) ==>
      Listed(m0, p) && PageContent(objects, m, codec, p) == PageContent(objects0, m0, codec, p)
  }

  /** A tree not yet compacted gives up and takes only ids no earlier tree touched. */
  lemma IdsAreUntouched(m0: Manifest, roots: set<nat>, touched: set<nat>, v: nat, m: Manifest, cache: Cache,
                        codec: Codec, last: TreeRun, g: nat)
    requires last.before == m && last.root !in roots && TreeStep(m, last.root, last.live, cache, codec, v, last.r)
    requires KeysMoved(m0, touched, v, m) && RestUntouched(m0, roots, touched, m)
    requires g in last.r.ids || g in TreeIds(m, last.root)
    ensures g !in touched && KeyAt(m, g) == KeyAt(m0, g)
  {
    hide PagesAt, TableAt, NewGroups, UploadsFor, GroupTable, KeyAt;
    var ids := TreeIds(m, last.root);
    if g !in ids {
      var a :| 0 <= a < |last.r.ids| && last.r.ids[a] == g;
    } else {
      assert g in Elements(TreeIds(m0, last.root));
    }
  }

  /** One more tree keeps the key, tree and replaced-key bookkeeping. */
  lemma TreeKeepsKeys(m0: Manifest, roots: set<nat>, touched: set<nat>, v: nat, m: Manifest, cache: Cache,
                      codec: Codec, last: TreeRun)
    requires last.before == m && last.root !in roots && TreeStep(m, last.root, last.live, cache, codec, v, last.r)
    requires TreesOwnGroups(m) && KeysMoved(m0, touched, v, m) && RestUntouched(m0, roots, touched, m)
    ensures KeysMoved(m0, touched + Elements(last.r.ids) + Elements(TreeIds(m, last.root)), v, last.r.m)
  {
    hide PagesAt, TableAt, NewGroups, UploadsFor, GroupTable, KeyAt, TreeIsKeyed, RestUntouched;
    var ids := TreeIds(m, last.root);
    assert OwnGroups(m, ids);
    var touched' := touched + Elements(last.r.ids) + Elements(ids);
    forall g: nat
      ensures g in touched' ==>
                g < |last.r.m.groupPages| && (KeyAt(last.r.m, g).None? || KeyAt(last.r.m, g) == Some(PageGroup(g, v)))
      ensures g !in touched' ==> KeyAt(last.r.m, g) == KeyAt(m0, g)
    {
      if g in last.r.ids {
        var a :| 0 <= a < |last.r.ids| && last.r.ids[a] == g;
      } else if g in ids {
        var a :| 0 <= a < |ids| && ids[a] == g;
      }
    }
  }

  lemma TreeKeepsRest(m0: Manifest, roots: set<nat>, touched: set<nat>, v: nat, m: Manifest, cache: Cache,
                      codec: Codec, last: TreeRun)
    requires last.before == m && last.root !in roots && TreeStep(m, last.root, last.live, cache, codec, v, last.r)
    requires TreesOwnGroups(m) && RestUntouched(m0, roots, touched, m)
    ensures RestUntouched(m0, roots + {last.root}, touched + Elements(last.r.ids) + Elements(TreeIds(m, last.root)),
      last.r.m)
  {
    hide PagesAt, TableAt, NewGroups, UploadsFor, GroupTable, KeyAt, TreeIsKeyed, OwnGroups, Elements;
    forall root <- m0.btrees.Keys | root !in roots + {last.root}
      ensures last.r.m.btrees[root] == m0.btrees[root]
      ensures Elements(TreeIds(m0, root)) !! touched + Elements(last.r.ids) + Elements(TreeIds(m, last.root))
    {
      FreshIdsAreNoTrees(m, last.root, root, last.r.ids);
      assert TreeIds(m, root) == TreeIds(m0, root);
    }
  }

  lemma TreeKeepsReplaced(m0: Manifest, roots: set<nat>, touched: set<nat>, replaced: set<Key>, v: nat, m: Manifest,
                          cache: Cache, codec: Codec, last: TreeRun)
    requires last.before == m && last.root !in roots && TreeStep(m, last.root, last.live, cache, codec, v, last.r)
    requires KeysMoved(m0, touched, v, m) && RestUntouched(m0, roots, touched, m)
    requires ReplacedAreOld(m0, touched, replaced)
    ensures ReplacedAreOld(m0, touched + Elements(last.r.ids) + Elements(TreeIds(m, last.root)),
      replaced + KeySet(last.r.replaced))
  {
    hide PagesAt, TableAt, NewGroups, UploadsFor, GroupTable, KeyAt, TreeIsKeyed, OwnGroups, KeysMoved, RestUntouched;
    var more := Elements(last.r.ids) + Elements(TreeIds(m, last.root));
    assert touched + Elements(last.r.ids) + Elements(TreeIds(m, last.root)) == touched + more;
    forall g <- more
      ensures KeyAt(m, g) == KeyAt(m0, g)
    {
      IdsAreUntouched(m0, roots, touched, v, m, cache, codec, last, g);
    }
    forall k: Key
      ensures k in KeySet(last.r.replaced) <==> exists g <- more :: KeyAt(m0, g) == Some(k)
    {
      TreeReplaces(m, cache, codec, v, last, k);
    }
    hide TreeCompacted, TreeIds;
    ReplacedTogether(m0, touched, replaced, more, KeySet(last.r.replaced));
  }

  lemma TreeReplaces(m: Manifest, cache: Cache, codec: Codec, v: nat, last: TreeRun, k: Key)
    requires last.before == m && TreeStep(m, last.root, last.live, cache, codec, v, last.r)
    ensures k in KeySet(last.r.replaced) <==>
            exists g <- Elements(last.r.ids) + Elements(TreeIds(m, last.root)) :: KeyAt(m, g) == Some(k)
  {
    hide PagesAt, TableAt, NewGroups, UploadsFor, GroupTable, KeyAt, OwnGroups;
    if g: nat :| (g in TreeIds(m, last.root) || g in last.r.ids) && KeyAt(m, g) == Some(k) {
      assert g in Elements(last.r.ids) + Elements(TreeIds(m, last.root));
    }
  }

  lemma ReplacedTogether(m: Manifest, a: set<nat>, replaced: set<Key>, b: set<nat>, replaced': set<Key>)
    requires ReplacedAreOld(m, a, replaced) && ReplacedAreOld(m, b, replaced')
    ensures ReplacedAreOld(m, a + b, replaced + replaced')
  {
    hide KeyAt;
    forall k: Key
      ensures k in replaced + replaced' <==> exists g <- a + b :: KeyAt(m, g) == Some(k)
    {
      if g :| g in a && KeyAt(m, g) == Some(k) {
        assert g in a + b;
      }
      if g :| g in b && KeyAt(m, g) == Some(k) {
        assert g in a + b;
      }
    }
  }

  /** New ids of one tree are not ids of another. */
  lemma FreshIdsAreNoTrees(m: Manifest, root: nat, other: nat, ids: seq<nat>)
    requires TreesOwnGroups(m) && root in m.btrees && other in m.btrees && root != other
    requires IdsAssigned(m, TreeIds(m, root), ids)
    ensures Elements(ids) !! Elements(TreeIds(m, other))
  {
    forall g <- ids
      ensures g !in TreeIds(m, other)
    {
      var a :| 0 <= a < |ids| && ids[a] == g;
      if a < |TreeIds(m, root)| {
        assert g in Elements(TreeIds(m, root));
      }
    }
  }

  /** After a tree, trees still own disjoint groups with objects. */
  lemma TreesAfter(m: Manifest, cache: Cache, codec: Codec, v: nat, last: TreeRun)
    requires last.before == m && TreeStep(m, last.root, last.live, cache, codec, v, last.r) && TreesOwnGroups(m)
    requires TreeIsKeyed(last.r.m, last.r.ids)
    ensures TreesOwnGroups(last.r.m)
  {
    hide PagesAt, TableAt, NewGroups, UploadsFor, GroupTable;
    var r, m' := last.r, last.r.m;
    forall root <- m'.btrees.Keys
      ensures OwnGroups(m', TreeIds(m', root)) && TreeIsKeyed(m', TreeIds(m', root))
    {
      if root != last.root {
        OtherTreeKept(m, cache, codec, v, last, root);
      }
    }
    forall a <- m'.btrees.Keys, b <- m'.btrees.Keys | a != b
      ensures Elements(TreeIds(m', a)) !! Elements(TreeIds(m', b))
    {
      if a == last.root {
        FreshIdsAreNoTrees(m, last.root, b, r.ids);
      } else if b == last.root {
        FreshIdsAreNoTrees(m, last.root, a, r.ids);
      }
    }
  }

  lemma OtherTreeKept(m: Manifest, cache: Cache, codec: Codec, v: nat, last: TreeRun, root: nat)
    requires last.before == m && TreeStep(m, last.root, last.live, cache, codec, v, last.r) && TreesOwnGroups(m)
    requires root in m.btrees && root != last.root
    ensures root in last.r.m.btrees && TreeIds(last.r.m, root) == TreeIds(m, root)
    ensures OwnGroups(last.r.m, TreeIds(m, root)) && TreeIsKeyed(last.r.m, TreeIds(m, root))
  {
    hide PagesAt, TableAt, NewGroups, UploadsFor, GroupTable;
    var ids := TreeIds(m, root);
    FreshIdsAreNoTrees(m, last.root, root, last.r.ids);
    forall i | 0 <= i < |ids|
      ensures KeyAt(last.r.m, ids[i]).Some?
    {
      assert ids[i] in Elements(ids);
      assert ids[i] !in Elements(TreeIds(m, last.root));
    }
  }

  // ---------- the books of a call ----------

  /** One call names no tree twice: its candidates come from a map keyed by root. */
  ghost predicate DistinctRoots(runs: seq<TreeRun>) {
    forall i, j :: 0 <= i < j < |runs| ==> runs[i].root != runs[j].root
  }

  /** How a call moved keys, trees and replaced keys. */
  ghost predicate Books(m0: Manifest, runs: seq<TreeRun>, v: nat, m: Manifest) {
    && SameFrame(m0, m) && TreesOwnGroups(m)
    && KeysMoved(m0, Touched(runs), v, m)
    && RestUntouched(m0, Roots(runs), Touched(runs), m)
    && ReplacedAreOld(m0, Touched(runs), AllReplaced(runs))
  }

  /** The sums over a call, one tree further. */
  lemma {:induction false} OneMoreTree(objects: Objects, runs: seq<TreeRun>, last: TreeRun)
    requires last.root in last.before.btrees
    ensures objects + AllUploads(runs + [last]) == After(objects + AllUploads(runs), last.r)
    ensures Roots(runs + [last]) == Roots(runs) + {last.root}
    ensures Touched(runs + [last]) == Touched(runs) + Elements(last.r.ids) + Elements(TreeIds(last.before, last.root))
    ensures AllReplaced(runs + [last]) == AllReplaced(runs) + KeySet(last.r.replaced)
  {
    hide UploadMap;
    assert (runs + [last])[..|runs|] == runs;
    forall x: nat
      ensures x in Roots(runs + [last]) <==> x in Roots(runs) + {last.root}
    {
      if x in Roots(runs) {
        var y :| y in runs && y.root == x;
        assert y in runs + [last];
      }
      assert last in runs + [last];
    }
  }

  lemma {:induction false} BooksStep(m0: Manifest, runs: seq<TreeRun>, v: nat, cache: Cache, codec: Codec,
                                     last: TreeRun)
    requires TreesOwnGroups(last.before) && KeysMoved(m0, Touched(runs), v, last.before)
    requires RestUntouched(m0, Roots(runs), Touched(runs), last.before)
    requires ReplacedAreOld(m0, Touched(runs), AllReplaced(runs))
    requires TreeStep(last.before, last.root, last.live, cache, codec, v, last.r) && last.root !in Roots(runs)
    requires TreeIsKeyed(last.r.m, last.r.ids)
    ensures TreesOwnGroups(last.r.m) && KeysMoved(m0, Touched(runs + [last]), v, last.r.m)
    ensures RestUntouched(m0, Roots(runs + [last]), Touched(runs + [last]), last.r.m)
    ensures ReplacedAreOld(m0, Touched(runs + [last]), AllReplaced(runs + [last]))
  {
    hide PageContent, Kept, Materializable, KeysMoved, RestUntouched, ReplacedAreOld, UniquePages, WellKeyed,
         NewGroups, GroupTable,
         UploadsFor, OwnGroups, Lawful, KeyAt, PagesAt, TableAt, UploadMap, Listed, TreeCompacted, Touched, Roots,
           AllReplaced, TreesOwnGroups;
    OneMoreTree(map[], runs, last);
    TreesAfter(last.before, cache, codec, v, last);
    TreeKeepsKeys(m0, Roots(runs), Touched(runs), v, last.before, cache, codec, last);
    TreeKeepsRest(m0, Roots(runs), Touched(runs), v, last.before, cache, codec, last);
    TreeKeepsReplaced(m0, Roots(runs), Touched(runs), AllReplaced(runs), v, last.before, cache, codec, last);
  }

  lemma StepKeepsFrame(last: TreeRun, cache: Cache, codec: Codec, v: nat)
    requires TreeStep(last.before, last.root, last.live, cache, codec, v, last.r)
    ensures SameFrame(last.before, last.r.m)
  {
  }

  lemma {:induction false} CallKeepsBooks(m0: Manifest, runs: seq<TreeRun>, cache: Cache, codec: Codec, v: nat,
                                          m: Manifest)
    requires Chain(m0, runs, cache, codec, v, m) && DistinctRoots(runs) && TreesOwnGroups(m0)
    ensures Books(m0, runs, v, m)
  {
    hide TreesOwnGroups, TreeStep, KeyAt, TreeIds;
    if runs != [] {
      hide KeysMoved, RestUntouched, ReplacedAreOld, Touched, Roots, AllReplaced;
      var init, last := runs[..|runs| - 1], runs[|runs| - 1];
      assert runs == init + [last];
      CallKeepsBooks(m0, init, cache, codec, v, last.before);
      RootIsNew(init, last);
      OwnedTreeIsKeyed(last.before, last.root, last.live, cache, codec, v, last.r);
      BooksStep(m0, init, v, cache, codec, last);
      StepKeepsFrame(last, cache, codec, v);
    }
  }

  lemma RootIsNew(init: seq<TreeRun>, last: TreeRun)
    requires DistinctRoots(init + [last])
    ensures last.root !in Roots(init)
  {
    var runs := init + [last];
    forall i | 0 <= i < |init|
      ensures init[i].root != last.root
    {
      assert runs[i].root != runs[|init|].root;
    }
  }

  // ---------- a call tree by tree ----------

  ghost function ManifestAt(m0: Manifest, runs: seq<TreeRun>, n: nat): Manifest
    requires n <= |runs|
  {
    if n == 0 then m0 else runs[n - 1].r.m
  }

  ghost predicate RunAt(m0: Manifest, runs: seq<TreeRun>, cache: Cache, codec: Codec, v: nat, n: nat)
    requires n < |runs|
  {
    var x := runs[n];
    x.before == ManifestAt(m0, runs, n) && TreeStep(x.before, x.root, x.live, cache, codec, v, x.r)
  }

  /** The runs are these trees, in order, from `m0` to `m`. */
  ghost predicate Calls(m0: Manifest, trees: seq<Candidate>, runs: seq<TreeRun>, cache: Cache, codec: Codec, v: nat) {
    && |runs| == |trees|
    && (forall n :: 0 <= n < |runs| ==> runs[n].root == trees[n].root && runs[n].live == trees[n].live)
    && (forall n :: 0 <= n < |runs| ==> RunAt(m0, runs, cache, codec, v, n))
  }

  lemma {:induction false} ChainIsRuns(m0: Manifest, runs: seq<TreeRun>, cache: Cache, codec: Codec, v: nat,
                                       m: Manifest)
    requires Chain(m0, runs, cache, codec, v, m)
    ensures forall n :: 0 <= n < |runs| ==> RunAt(m0, runs, cache, codec, v, n)
    ensures m == ManifestAt(m0, runs, |runs|)
  {
    hide TreeStep;
    if runs != [] {
      var init, last := runs[..|runs| - 1], runs[|runs| - 1];
      ChainIsRuns(m0, init, cache, codec, v, last.before);
      forall n | 0 <= n < |runs|
        ensures RunAt(m0, runs, cache, codec, v, n)
      {
        if n < |init| {
          assert RunAt(m0, init, cache, codec, v, n);
          assert ManifestAt(m0, runs, n) == ManifestAt(m0, init, n);
        }
      }
    }
  }

  lemma {:induction false} CallsOf(m0: Manifest, trees: seq<Candidate>, runs: seq<TreeRun>, cache: Cache,
                                   codec: Codec, v: nat, m: Manifest)
    requires Chain(m0, runs, cache, codec, v, m) && |runs| == |trees|
    requires forall n :: 0 <= n < |runs| ==> runs[n].root == trees[n].root && runs[n].live == trees[n].live
    ensures Calls(m0, trees, runs, cache, codec, v) && m == ManifestAt(m0, runs, |runs|)
  {
    hide Chain, RunAt;
    ChainIsRuns(m0, runs, cache, codec, v, m);
  }

  lemma {:induction false} ChainGrows(m0: Manifest, runs: seq<TreeRun>, x: TreeRun, cache: Cache, codec: Codec, v: nat)
    requires Chain(m0, runs, cache, codec, v, x.before) && TreeStep(x.before, x.root, x.live, cache, codec, v, x.r)
    ensures Chain(m0, runs + [x], cache, codec, v, x.r.m)
  {
    hide TreeStep;
    assert (runs + [x])[..|runs|] == runs;
  }

  // ---------- which pages stay ----------

  /** The pages in the groups of tree `root`. */
  ghost predicate InTreeGroups(m: Manifest, root: nat, p: nat) {
    root in m.btrees && exists g <- TreeIds(m, root) :: p in PagesAt(m, g)
  }

  /** No walk missed a page of `alive` that sits in its tree's groups. */
  ghost predicate WalksCover(runs: seq<TreeRun>, alive: set<nat>) {
    forall x <- runs, p <- alive :: InTreeGroups(x.before, x.root, p) ==> p in x.live
  }

  lemma AliveStaysListed(last: TreeRun, cache: Cache, codec: Codec, v: nat, p: nat)
    requires TreeStep(last.before, last.root, last.live, cache, codec, v, last.r) && Listed(last.before, p)
    requires InTreeGroups(last.before, last.root, p) ==> p in last.live
    ensures Listed(last.r.m, p)
  {
    hide PagesAt, KeyAt, Kept, TreeCompacted, OwnGroups;
    var m := last.before;
    var g: nat, i: nat :| Located(m, p, g, i);
    assert p == PagesAt(m, g)[i] && p in PagesAt(m, g);
    KeptPages(m, TreeIds(m, last.root), last.live);
    ListedAfter(m, last.root, last.live, cache, codec, v, last.r, p);
    if g in TreeIds(m, last.root) {
      assert p in KeptOf(m, last.root, last.live);
    }
  }

  /** A call whose walks miss no live page drops none. */
  lemma {:induction false} CallKeepsAlive(m0: Manifest, runs: seq<TreeRun>, cache: Cache, codec: Codec, v: nat,
                                          m: Manifest, alive: set<nat>, p: nat)
    requires Chain(m0, runs, cache, codec, v, m) && WalksCover(runs, alive) && p in alive && Listed(m0, p)
    ensures Listed(m, p)
  {
    hide TreeStep, Listed, InTreeGroups;
    if runs != [] {
      var init, last := runs[..|runs| - 1], runs[|runs| - 1];
      assert forall x <- init :: x in runs;
      CallKeepsAlive(m0, init, cache, codec, v, last.before, alive, p);
      AliveStaysListed(last, cache, codec, v, p);
    }
  }

  // ---------- the call as a method ----------

  /** The published manifest, src/tiered/bench.rs:696-698. */
  function Published(m: Manifest, v: nat, changeCounter: nat): Manifest {
    m.(version := v, changeCounter := changeCounter)
  }

  lemma OwnedTreeIsKeyed(m: Manifest, root: nat, live: set<nat>, cache: Cache, codec: Codec, v: nat, r: TreeResult)
    requires TreeStep(m, root, live, cache, codec, v, r)
    ensures TreeIsKeyed(r.m, r.ids)
  {
    hide PagesAt, TableAt, NewGroups, UploadsFor, GroupTable, KeyAt;
    assert forall i :: 0 <= i < |r.ids| ==> r.ids[i] in r.ids;
  }

  /** The candidates the walk found and the manifest knows; the others are skipped. */
  ghost function Compactable(m: Manifest, candidates: seq<nat>, live: map<nat, set<nat>>): seq<nat> {
    if candidates == [] then []
    else
      var last := candidates[|candidates| - 1];
      Compactable(m, candidates[..|candidates| - 1], live) + if last in live && last in m.btrees then [last] else []
  }

  ghost function RootsInOrder(runs: seq<TreeRun>): seq<nat> {
    seq(|runs|, i requires 0 <= i < |runs| => runs[i].root)
  }

  /** The state of a call after some candidates, on a manifest whose trees own their groups. */
  ghost predicate Progress(m0: Manifest, candidates: seq<nat>, live: map<nat, set<nat>>, cache: Cache, codec: Codec,
                           v: nat,
                           m: Manifest, runs: seq<TreeRun>)
  {
    && Chain(m0, runs, cache, codec, v, m) && TreesOwnGroups(m) && m.btrees.Keys == m0.btrees.Keys
    && RootsInOrder(runs) == Compactable(m0, candidates, live)
    && forall x <- runs :: x.root in live && x.live == live[x.root]
  }

  lemma CandidateDone(m0: Manifest, candidates: seq<nat>, live: map<nat, set<nat>>, cache: Cache, codec: Codec, v: nat,
                      runs: seq<TreeRun>, last: TreeRun)
    requires Progress(m0, candidates, live, cache, codec, v, last.before, runs)
    requires last.root in last.before.btrees && last.root in live && last.live == live[last.root]
    requires last.before.pagesPerGroup > 0
    requires OwnGroups(last.before, TreeIds(last.before, last.root)) ==>
               TreeCompacted(last.before, last.root, NewGroups(last.before, last.root, last.live), cache, codec, v,
                 last.r)
    ensures Progress(m0, candidates + [last.root], live, cache, codec, v, last.r.m, runs + [last])
  {
    hide TreeStep, TreeCompacted, NewGroups, TreesOwnGroups, OwnGroups, TreeIsKeyed;
    OwnTreeStep(last, cache, codec, v);
    OwnedTreeIsKeyed(last.before, last.root, last.live, cache, codec, v, last.r);
    TreesAfter(last.before, cache, codec, v, last);
    StepKeepsRoots(last, cache, codec, v);
    assert (runs + [last])[..|runs|] == runs;
    assert (candidates + [last.root])[..|candidates|] == candidates;
  }

  lemma CandidateSkipped(m0: Manifest, candidates: seq<nat>, live: map<nat, set<nat>>, cache: Cache, codec: Codec,
                         v: nat,
                         m: Manifest, runs: seq<TreeRun>, root: nat)
    requires Progress(m0, candidates, live, cache, codec, v, m, runs) && (root !in live || root !in m.btrees)
    ensures Progress(m0, candidates + [root], live, cache, codec, v, m, runs)
  {
    hide TreeStep, TreesOwnGroups, Chain;
    assert (candidates + [root])[..|candidates|] == candidates;
  }

  lemma {:induction false} TotalsDone(uploads: seq<Upload>, replaced: seq<Key>, runs: seq<TreeRun>, last: TreeRun)
    requires UploadMap(uploads) == AllUploads(runs) && KeySet(replaced) == AllReplaced(runs)
    ensures UploadMap(uploads + last.r.uploads) == AllUploads(runs + [last])
    ensures KeySet(replaced + last.r.replaced) == AllReplaced(runs + [last])
  {
    assert (runs + [last])[..|runs|] == runs;
    UploadMapConcat(uploads, last.r.uploads);
  }

  /**
   The candidate loop, src/tiered/bench.rs:556-698. A root missing from the walk or from the
   manifest is skipped. The storage calls between trees are not made here.
   */
  method Compact(m0: Manifest, candidates: seq<nat>, live: map<nat, set<nat>>, cache: Cache, codec: Codec,
                 changeCounter: nat)
    returns (m: Manifest, uploads: seq<Upload>, replaced: seq<Key>, compacted: nat, ghost runs: seq<TreeRun>,
      ghost packed: Manifest)
    requires m0.pagesPerGroup > 0
    ensures m == Published(packed, m0.version + 1, changeCounter)
    ensures m == packed.(version := m0.version + 1, changeCounter := changeCounter)
    ensures TreesOwnGroups(m0) ==> Progress(m0, candidates, live, cache, codec, m0.version + 1, packed, runs)
    ensures |runs| == compacted
    ensures UploadMap(uploads) == AllUploads(runs) && KeySet(replaced) == AllReplaced(runs)
  {
    m, uploads, replaced, compacted, runs := m0, [], [], 0, [];
    var v := m0.version + 1;
    assert TreesOwnGroups(m0) ==> Progress(m0, candidates[..0], live, cache, codec, v, m, runs);
    hide TreeStep, TreeCompacted, PagesAt, KeyAt, NewGroups, Progress, TreesOwnGroups, AllUploads, AllReplaced,
         UploadMap, KeySet;
    for i := 0 to |candidates|
      invariant |runs| == compacted && m.pagesPerGroup == m0.pagesPerGroup
      invariant TreesOwnGroups(m0) ==> Progress(m0, candidates[..i], live, cache, codec, v, m, runs)
      invariant UploadMap(uploads) == AllUploads(runs) && KeySet(replaced) == AllReplaced(runs)
    {
      var root := candidates[i];
      assert candidates[..i + 1] == candidates[..i] + [root];
      var groups := CompactBtree(m, root, live);
      if groups.None? {
        if TreesOwnGroups(m0) {
          CandidateSkipped(m0, candidates[..i], live, cache, codec, v, m, runs, root);
        }
        continue;
      }
      var r := CompactGroups(m, root, groups.value, cache, codec, v);
      ghost var last := TreeRun(m, root, live[root], r);
      if TreesOwnGroups(m0) {
        CandidateDone(m0, candidates[..i], live, cache, codec, v, runs, last);
      }
      TotalsDone(uploads, replaced, runs, last);
      uploads, replaced := uploads + r.uploads, replaced + r.replaced;
      m := r.m;
      runs := runs + [last];
      compacted := compacted + 1;
    }
    assert candidates[..|candidates|] == candidates;
    packed := m;
    m := m.(version := v, changeCounter := changeCounter);
  }

  lemma StepKeepsRoots(last: TreeRun, cache: Cache, codec: Codec, v: nat)
    requires TreeStep(last.before, last.root, last.live, cache, codec, v, last.r)
    ensures last.r.m.btrees.Keys == last.before.btrees.Keys
  {
  }

  lemma OwnTreeStep(last: TreeRun, cache: Cache, codec: Codec, v: nat)
    requires TreesOwnGroups(last.before) && last.root in last.before.btrees && last.before.pagesPerGroup > 0
    requires OwnGroups(last.before, TreeIds(last.before, last.root)) ==>
               TreeCompacted(last.before, last.root, NewGroups(last.before, last.root, last.live), cache, codec, v,
                 last.r)
    ensures TreeStep(last.before, last.root, last.live, cache, codec, v, last.r)
  {
  }

  lemma {:induction false} UploadMapConcat(a: seq<Upload>, b: seq<Upload>)
    ensures UploadMap(a + b) == UploadMap(a) + UploadMap(b)
  {
    if b == [] {
      assert a + b == a;
    } else {
      hide UploadMap;
      var init, last := b[..|b| - 1], b[|b| - 1];
      UploadMapConcat(a, init);
      assert a + b == (a + init) + [last] && b == init + [last];
      UploadMapSnoc(a + init, last);
      UploadMapSnoc(init, last);
      UpdateRight(UploadMap(a), UploadMap(init), last.key, last.blob);
    }
  }

  lemma UpdateRight(a: Objects, b: Objects, k: Key, blob: Blob)
    ensures (a + b)[k := blob] == a + b[k := blob]
  {
  }

  lemma {:induction false} UploadMapSnoc(a: seq<Upload>, last: Upload)
    ensures UploadMap(a + [last]) == UploadMap(a)[last.key := last.blob]
  {
    assert (a + [last])[..|a|] == a;
  }
}
