/**
 How the importer packs trees into groups (src/tiered/import.rs:104-175), and a database whose
 imported manifest a compaction damages: two trees share a group and one of them straddles two.
 */
module ImportedManifest {
  import opened Common
  import opened StoreKeys
  import opened Tiered
  import opened Compaction
  import opened CompactionTheorems
  import opened Compactions
  import opened SharedGroups
  import opened SharedPages
  import opened DeadSpace
  import opened Graphs

  // ---------- packing ----------

  function Threshold(ppg: nat): nat { if ppg / 4 == 0 then 1 else ppg / 4 }

  /** Groups of the large trees; `trees` come in the walk's order, largest first, pages ascending. */
  function LargeGroups(trees: seq<seq<nat>>, ppg: nat): seq<seq<nat>>
    requires ppg > 0
  {
    if trees == [] then []
    else (if |trees[0]| >= Threshold(ppg) then ChunkPages(trees[0], ppg) else []) + LargeGroups(trees[1..], ppg)
  }

  /** Pages of the small trees, one tree after the other. */
  function SmallPages(trees: seq<seq<nat>>, ppg: nat): seq<nat> {
    if trees == [] then []
    else (if |trees[0]| >= Threshold(ppg) then [] else trees[0]) + SmallPages(trees[1..], ppg)
  }

  /** Index of the group that holds page 0, if any. */
  function PageZeroGroup(groups: seq<seq<nat>>): Option<nat> {
    if groups == [] then None
    else if 0 in groups[0] then Some(0)
    else match PageZeroGroup(groups[1..]) case None => None case Some(i) => Some(i + 1)
  }

  function SwapFirst(groups: seq<seq<nat>>, i: nat): seq<seq<nat>> {
    if i < |groups| then groups[0 := groups[i]][i := groups[0]] else groups
  }

  function ImportGroups(trees: seq<seq<nat>>, unowned: seq<nat>, ppg: nat): seq<seq<nat>>
    requires ppg > 0
  {
    var groups := LargeGroups(trees, ppg) + ChunkPages(SmallPages(trees, ppg) + unowned, ppg);
    match PageZeroGroup(groups)
    case None => groups
    case Some(i) => SwapFirst(groups, i)
  }

  /** The groups a tree's pages lie in, ascending. */
  function TreeGroupIds(groups: seq<seq<nat>>, pages: seq<nat>, n: nat): seq<nat>
    requires n <= |groups|
  {
    if n == 0 then []
    else TreeGroupIds(groups, pages, n - 1) + if exists p <- pages :: p in groups[n - 1] then [n - 1] else []
  }

  // ---------- a database of six three-page tables ----------

  /** The numbers from `lo` up to `hi`. */
  function Range(lo: nat, hi: nat): (r: seq<nat>)
    requires lo <= hi
    ensures |r| == hi - lo && forall i :: 0 <= i < |r| ==> r[i] == lo + i
  {
    seq(hi - lo, i requires i >= 0 => lo + i)
  }

  /** Tables `k` to 5 of three pages each, then the schema page. */
  function Tables(k: nat): seq<seq<nat>>
    requires k <= 6
    decreases 6 - k
  {
    if k == 6 then [[0]] else [[3 * k + 1, 3 * k + 2, 3 * k + 3]] + Tables(k + 1)
  }

  /** Sixteen pages to a group. */
  function Groups(): seq<seq<nat>> { [[17, 18, 0], Range(1, 17)] }

  lemma {:induction false} OneMoreSmall(tree: seq<nat>, rest: seq<seq<nat>>)
    requires |tree| < 4
    ensures LargeGroups([tree] + rest, 16) == LargeGroups(rest, 16)
    ensures SmallPages([tree] + rest, 16) == tree + SmallPages(rest, 16)
  {
    assert ([tree] + rest)[1..] == rest;
  }

  lemma RangeGrows(lo: nat, hi: nat, tail: seq<nat>)
    requires lo + 3 <= hi
    ensures [lo, lo + 1, lo + 2] + (Range(lo + 3, hi) + tail) == Range(lo, hi) + tail
  {
    assert [lo, lo + 1, lo + 2] + Range(lo + 3, hi) == Range(lo, hi);
  }

  lemma SchemaIsSmall()
    ensures LargeGroups([[0]], 16) == [] && SmallPages([[0]], 16) == Range(19, 19) + [0]
  {
    OneMoreSmall([0], []);
    assert [[0]] + [] == [[0]];
  }

  /** No tree reaches a quarter of a group, so their pages are packed end to end. */
  lemma {:induction false} AllAreSmall(k: nat)
    requires k <= 6
    ensures LargeGroups(Tables(k), 16) == [] && SmallPages(Tables(k), 16) == Range(3 * k + 1, 19) + [0]
    decreases 6 - k
  {
    hide LargeGroups, SmallPages, Range;
    if k == 6 {
      SchemaIsSmall();
    } else {
      AllAreSmall(k + 1);
      OneMoreSmall([3 * k + 1, 3 * k + 2, 3 * k + 3], Tables(k + 1));
      RangeGrows(3 * k + 1, 19, [0]);
    }
  }

  lemma SmallSplit(a: seq<nat>, b: seq<nat>)
    requires a == Range(1, 17) && b == [17, 18, 0]
    ensures Range(1, 19) + [0] + [] == a + b
  {
  }

  lemma {:induction false} TwoChunks(a: seq<nat>, b: seq<nat>)
    requires |a| == 16 && 0 < |b| <= 16
    ensures ChunkPages(a + b, 16) == [a, b]
  {
    var s := a + b;
    assert s[..16] == a && s[16..] == b;
    assert ChunkPages(b, 16) == [b];
  }

  lemma SwapTwo(a: seq<nat>, b: seq<nat>)
    requires 0 !in a && 0 in b
    ensures PageZeroGroup([a, b]) == Some(1) && SwapFirst([a, b], 1) == [b, a]
  {
    assert [a, b][1..] == [b];
    assert PageZeroGroup([b]) == Some(0);
  }

  /** The import of the seven trees: the last table straddles the two groups, and page 0's group comes first. */
  lemma ImportIs()
    ensures ImportGroups(Tables(0), [], 16) == Groups()
    ensures TreeGroupIds(Groups(), [0], 2) == [0] && TreeGroupIds(Groups(), [16, 17, 18], 2) == [0, 1]
  {
    hide LargeGroups, SmallPages, Tables, TreeGroupIds, Groups, Range, ImportGroups;
    AllAreSmall(0);
    IdsAre();
    PackIs(Tables(0));
  }

  lemma {:induction false} PackIs(trees: seq<seq<nat>>)
    requires LargeGroups(trees, 16) == [] && SmallPages(trees, 16) == Range(1, 19) + [0]
    ensures ImportGroups(trees, [], 16) == Groups()
  {
    hide LargeGroups, SmallPages, ChunkPages, PageZeroGroup, SwapFirst;
    var a, b := Range(1, 17), [17, 18, 0];
    SmallSplit(a, b);
    SwapTwo(a, b);
    hide Range;
    TwoChunks(a, b);
    assert [] + [a, b] == [a, b];
  }

  lemma IdsAre()
    ensures TreeGroupIds(Groups(), [0], 2) == [0] && TreeGroupIds(Groups(), [16, 17, 18], 2) == [0, 1]
  {
    var groups := Groups();
    assert groups[1][15] == 16;
    assert 0 in [0] && 0 in groups[0] && 17 in [16, 17, 18] && 17 in groups[0] && 16 in [16, 17, 18] && 16 in groups[1];
    assert TreeGroupIds(groups, [0], 0) == [] && TreeGroupIds(groups, [16, 17, 18], 0) == [];
    assert TreeGroupIds(groups, [0], 1) == [0] && TreeGroupIds(groups, [16, 17, 18], 1) == [0];
  }

  // ---------- the manifest and what compact picks ----------

  function Imported(): Manifest {
    Manifest(1, 0, 19, 512, 16, [Some(PageGroup(0, 1)), Some(PageGroup(1, 1))], map[], map[], [], 0, [], false,
      Groups(),
             map[0 := TreeEntry("sqlite_master", [0]), 1 := TreeEntry("t0", [1]), 4 := TreeEntry("t1", [1]),
                 7 := TreeEntry("t2", [1]), 10 := TreeEntry("t3", [1]), 13 := TreeEntry("t4", [1]),
                 16 := TreeEntry("t5", [0, 1])])
  }

  /** A table in group 1 and its pages, all alive. */
  function Table(k: nat): Candidate { Candidate(3 * k + 1, {3 * k + 1, 3 * k + 2, 3 * k + 3}) }

  /**
   The walk of the imported database, in an order its map may yield: the schema tree, the straddling
   table, the rest.
   */
  function Walked(): (r: seq<Candidate>)
    ensures |r| == 7 && r[0] == Candidate(0, {0}) && r[1] == Table(5)
    ensures forall i :: 2 <= i < 7 ==> r[i] == Table(i - 2)
  {
    [Candidate(0, {0}), Table(5), Table(0), Table(1), Table(2), Table(3), Table(4)]
  }

  lemma ImportedFacts(m: Manifest)
    requires m == Imported()
    ensures m.groupPages == Groups() && !m.positional && m.pagesPerGroup == 16 && m.version == 1
    ensures 0 in m.btrees && 16 in m.btrees && TreeIds(m, 0) == [0] && TreeIds(m, 16) == [0, 1]
    ensures forall k: nat :: k < 5 ==> Table(k).root in m.btrees && TreeIds(m, Table(k).root) == [1]
    ensures PagesAt(m, 0) == [17, 18, 0] && PagesAt(m, 1) == Range(1, 17)
    ensures WellKeyed(m) && KeysUpTo(m, 1)
  {
  }

  lemma GroupShares(live: set<nat>)
    ensures DeadIn([17, 18, 0], live) == 3 - |{0, 17, 18} * live|
    ensures DeadIn(Range(1, 17), live) == 16 - |Elements(Range(1, 17)) * live|
  {
    hide DeadIn;
    DeadBySet([17, 18, 0], live);
    DeadBySet(Range(1, 17), live);
    assert Elements([17, 18, 0]) == {0, 17, 18};
  }

  lemma {:induction false} InRange(p: nat)
    ensures p in Elements(Range(1, 17)) <==> 1 <= p < 17
  {
    if 1 <= p < 17 {
      assert Range(1, 17)[p - 1] == p;
    }
  }

  lemma OneGroup(m: Manifest, g: nat, live: set<nat>)
    ensures DeadInGroups(m, [g], live) == DeadIn(PagesAt(m, g), live) && PagesInGroups(m, [g]) == |PagesAt(m, g)|
  {
    hide PagesAt, DeadIn;
    assert [g][..0] == [];
  }

  lemma BothGroups(m: Manifest, live: set<nat>)
    ensures DeadInGroups(m, [0, 1], live) == DeadIn(PagesAt(m, 0), live) + DeadIn(PagesAt(m, 1), live)
    ensures PagesInGroups(m, [0, 1]) == |PagesAt(m, 0)| + |PagesAt(m, 1)|
  {
    hide PagesAt, DeadIn;
    assert [0, 1][..1] == [0];
    OneGroup(m, 0, live);
  }

  /**
   The dead shares: 2 of 3 for the schema tree, 13 of 16 for each table of group 1, 16 of 19 for the
   straddling one.
   */
  lemma DeadShares(m: Manifest, k: nat)
    requires m == Imported() && k < 5
    ensures DeadInGroups(m, TreeIds(m, 0), {0}) == 2 && PagesInGroups(m, TreeIds(m, 0)) == 3
    ensures Table(k).root in m.btrees
    ensures DeadInGroups(m, TreeIds(m, Table(k).root), Table(k).live) == 13
    ensures PagesInGroups(m, TreeIds(m, Table(k).root)) == 16
    ensures DeadInGroups(m, TreeIds(m, 16), Table(5).live) == 16 && PagesInGroups(m, TreeIds(m, 16)) == 19
  {
    hide Imported, PagesAt, DeadIn, DeadInGroups, PagesInGroups;
    ImportedFacts(m);
    SchemaShare(m);
    TableShare(m, k);
    StraddlingShare(m);
  }

  lemma SchemaShare(m: Manifest)
    requires PagesAt(m, 0) == [17, 18, 0]
    ensures DeadInGroups(m, [0], {0}) == 2 && PagesInGroups(m, [0]) == 3
  {
    hide PagesAt, DeadIn, DeadInGroups, PagesInGroups;
    OneGroup(m, 0, {0});
    GroupShares({0});
    assert {0, 17, 18} * {0} == {0};
  }

  lemma TableShare(m: Manifest, k: nat)
    requires PagesAt(m, 1) == Range(1, 17) && k < 5
    ensures DeadInGroups(m, [1], Table(k).live) == 13 && PagesInGroups(m, [1]) == 16
  {
    hide PagesAt, DeadIn, DeadInGroups, PagesInGroups, Range;
    OneGroup(m, 1, Table(k).live);
    GroupShares(Table(k).live);
    InRange(3 * k + 1);
    InRange(3 * k + 2);
    InRange(3 * k + 3);
    assert Elements(Range(1, 17)) * Table(k).live == {3 * k + 1, 3 * k + 2, 3 * k + 3};
  }

  lemma StraddlingShare(m: Manifest)
    requires PagesAt(m, 0) == [17, 18, 0] && PagesAt(m, 1) == Range(1, 17)
    ensures DeadInGroups(m, [0, 1], Table(5).live) == 16 && PagesInGroups(m, [0, 1]) == 19
  {
    hide PagesAt, DeadIn, DeadInGroups, PagesInGroups, Range;
    BothGroups(m, Table(5).live);
    GroupShares(Table(5).live);
    InRange(16);
    InRange(17);
    InRange(18);
    assert Elements(Range(1, 17)) * Table(5).live == {16};
    assert {0, 17, 18} * Table(5).live == {17, 18};
  }

  lemma {:induction false} AllSelected(m: Manifest, trees: seq<Candidate>, threshold: real)
    requires forall i :: 0 <= i < |trees| ==> IsSelected(m, trees[i], threshold)
    ensures Selected(m, trees, threshold) == trees
  {
    hide IsSelected;
    if trees != [] {
      AllSelected(m, trees[..|trees| - 1], threshold);
    }
  }

  lemma Ratios()
    ensures DeadRatio(2, 3) == 2.0 / 3.0 && DeadRatio(13, 16) > 2.0 / 3.0 && DeadRatio(16, 19) > 2.0 / 3.0
  {
  }

  /** Every threshold up to two thirds picks all seven trees. */
  lemma AllArePicked(threshold: real)
    requires threshold <= 2.0 / 3.0
    ensures Selected(Imported(), Walked(), threshold) == Walked()
  {
    var m := Imported();
    hide Imported, PagesAt, DeadInGroups, PagesInGroups, DeadRatio, Walked;
    ImportedFacts(m);
    forall i | 0 <= i < 7
      ensures IsSelected(m, Walked()[i], threshold)
    {
      DeadShares(m, if i < 2 then 0 else i - 2);
      Ratios();
    }
    AllSelected(m, Walked(), threshold);
  }

  // ---------- the damage ----------

  lemma KeepsSome(m: Manifest, trees: seq<Candidate>, n: nat, g: nat, p: nat)
    requires n < |trees| && m.pagesPerGroup > 0
    requires g in IdsOf(m, trees[n]) && !OwnedEarlier(m, trees, n, g) && p in PagesAt(m, g) && p in trees[n].live
    ensures GroupCount(m, trees, n) > 0
  {
    var ids := Unshared(m, trees, n, IdsOf(m, trees[n]));
    hide Kept, PagesAt, Unshared;
    KeptPages(m, ids, trees[n].live);
    assert p in Kept(m, ids, trees[n].live);
  }

  lemma WalkedIds(m: Manifest)
    requires m == Imported()
    ensures IdsOf(m, Walked()[0]) == [0] && IdsOf(m, Walked()[1]) == [0, 1]
    ensures forall i :: 2 <= i < 7 ==> IdsOf(m, Walked()[i]) == [1]
    ensures CanCall(m, Walked())
  {
    hide Imported, PagesAt, Walked;
    ImportedFacts(m);
    var trees := Walked();
    forall i, j | 0 <= i < j < 7
      ensures trees[i].root != trees[j].root && trees[i].live !! trees[j].live
    {
    }
  }

  /** The call on the seven trees will give the first two of them group id 0. */
  lemma BothTakeZero()
    ensures CanCall(Imported(), Walked()) && TakenTwice(Imported(), Walked(), 0, 0, 1)
  {
    hide Imported, PagesAt, GroupCount, Walked, CanCall;
    var m, trees := Imported(), Walked();
    ImportedFacts(m);
    WalkedIds(m);
    assert Range(1, 17)[15] == 16;
    assert 0 in PagesAt(m, 0) && 16 in PagesAt(m, 1);
    assert 0 in [0] && 1 in [0, 1] && 1 !in [0];
    KeepsSome(m, trees, 0, 0, 0);
    KeepsSome(m, trees, 1, 1, 16);
    assert IdsOf(m, trees[0])[0] == 0 && IdsOf(m, trees[1])[0] == 0;
    assert Takes(m, trees, 0, 0) && Takes(m, trees, 1, 0);
  }

  lemma ImportedPages(m: Manifest)
    requires m == Imported()
    ensures UniquePages(m) && PagesAreKeyed(m) && Located(m, 0, 0, 2)
  {
    ImportedFacts(m);
    assert KeyAt(m, 0).Some? && KeyAt(m, 1).Some? && forall g: nat :: g > 1 ==> PagesAt(m, g) == [];
    hide Imported, KeyAt, Range;
    forall p: nat, g: nat, i: nat, h: nat, j: nat | Located(m, p, g, i) && Located(m, p, h, j)
      ensures g == h && i == j
    {
      assert g <= 1 && h <= 1;
      assert g == 1 ==> p == 1 + i;
      assert h == 1 ==> p == 1 + j;
    }
  }

  /** The schema tree will be packed into one group. */
  lemma SchemaIsForeseen(m: Manifest)
    requires m == Imported()
    ensures Foreseen(m, Walked(), 0) == [[0]]
  {
    hide Imported, PagesAt, Walked, Kept, Unshared;
    ImportedFacts(m);
    WalkedIds(m);
    var ids := Unshared(m, Walked(), 0, [0]);
    KeptPages(m, ids, {0});
    assert 0 in ids && 0 in PagesAt(m, 0);
    SameMembersSameList(Kept(m, ids, {0}), [0]);
  }

  /** The straddling table owns the id the schema page is packed under, so the call drops page 0. */
  lemma SchemaPageIsDropped()
    ensures !KeptByCall(Imported(), Walked(), 0, 0)
  {
    hide Imported, Walked, PagesAt, Foreseen;
    var m, trees := Imported(), Walked();
    ImportedFacts(m);
    WalkedIds(m);
    SchemaIsForeseen(m);
    assert 0 in IdsOf(m, trees[0]) && 0 in IdsOf(m, trees[1]);
    forall n: nat, a: nat | FirstOwner(m, trees, n, 0)
      ensures !PackedForGood(m, trees, n, 0, a)
    {
      FirstOwnerIsOne(m, trees, 0, n, 0);
    }
  }

  /**
   Compacting the imported database, which any threshold up to two thirds asks for, deletes an object
   the new manifest names and drops the schema page, whatever the cache and the codec.
   */
  lemma ImportedManifestLosesObject(threshold: real, cache: Cache, codec: Codec)
    returns (runs: seq<TreeRun>, m: Manifest)
    requires threshold <= 2.0 / 3.0
    ensures ImportGroups(Tables(0), [], 16) == Imported().groupPages
    ensures var trees := Selected(Imported(), Walked(), threshold);
            && |runs| == |trees|
            && forall n :: 0 <= n < |runs| ==> runs[n].root == trees[n].root && runs[n].live == trees[n].live
    ensures Chain(Imported(), runs, cache, codec, 2, m) && DeletesNamedKey(runs, m)
    ensures Listed(Imported(), 0) && !Listed(m, 0)
  {
    hide Imported, Groups, PagesAt, CanCall, TakenTwice, Chain, WellKeyed, KeysUpTo, DeletesNamedKey, ImportGroups,
         Walked, Selected;
    ImportIs();
    AllArePicked(threshold);
    BothTakeZero();
    ImportedFacts(Imported());
    runs, m := CallExists(Imported(), Walked(), cache, codec, 2);
    DeletesNamedKeyIffTakenTwice(Imported(), Walked(), runs, cache, codec, 2, m);
    hide UniquePages, PagesAreKeyed, Located, KeptByCall;
    ImportedPages(Imported());
    SchemaPageIsDropped();
    CallKeepsPageIff(Imported(), Walked(), runs, cache, codec, 2, m, 0, 0, 2);
  }
}
