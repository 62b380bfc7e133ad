/**
 Which trees `compact` picks (src/tiered/compact.rs:60-134): those whose groups hold at least the
 threshold's share of pages that the walk did not find in the tree.
 */
module DeadSpace {
  import opened Tiered
  import opened Compaction
  import opened CompactTree
  import opened CompactionTheorems
  import opened Graphs

  function DeadIn(pages: seq<nat>, live: set<nat>): (n: nat)
    ensures n <= |pages|
  {
    if pages == [] then 0
    else DeadIn(pages[..|pages| - 1], live) + if pages[|pages| - 1] in live then 0 else 1
  }

  function PagesInGroups(m: Manifest, ids: seq<nat>): nat {
    if ids == [] then 0 else PagesInGroups(m, ids[..|ids| - 1]) + |PagesAt(m, ids[|ids| - 1])|
  }

  function DeadInGroups(m: Manifest, ids: seq<nat>, live: set<nat>): (n: nat)
    ensures n <= PagesInGroups(m, ids)
  {
    if ids == [] then 0
    else DeadInGroups(m, ids[..|ids| - 1], live) + DeadIn(PagesAt(m, ids[|ids| - 1]), live)
  }

  /** The `f64` ratio, without its rounding. */
  function DeadRatio(dead: nat, total: nat): real {
    if total > 0 then dead as real / total as real else 0.0
  }

  predicate IsSelected(m: Manifest, c: Candidate, threshold: real) {
    && c.root in m.btrees
    && var ids := m.btrees[c.root].groupIds;
       DeadRatio(DeadInGroups(m, ids, c.live), PagesInGroups(m, ids)) >= threshold
  }

  /** The trees picked, in the order the walk's map yields them. */
  function Selected(m: Manifest, trees: seq<Candidate>, threshold: real): seq<Candidate> {
    if trees == [] then []
    else
      var last := trees[|trees| - 1];
      Selected(m, trees[..|trees| - 1], threshold) + if IsSelected(m, last, threshold) then [last] else []
  }

  /** The two inner loops of the analysis, over a tree's groups and their pages. */
  method CountDead(m: Manifest, ids: seq<nat>, live: set<nat>) returns (dead: nat, total: nat)
    ensures dead == DeadInGroups(m, ids, live) && total == PagesInGroups(m, ids)
  {
    hide PagesAt;
    dead, total := 0, 0;
    for i := 0 to |ids|
      invariant dead == DeadInGroups(m, ids[..i], live) && total == PagesInGroups(m, ids[..i])
    {
      assert ids[..i + 1][..i] == ids[..i];
      var pages := PagesAt(m, ids[i]);
      ghost var dead0, total0 := dead, total;
      for j := 0 to |pages|
        invariant dead == dead0 + DeadIn(pages[..j], live) && total == total0 + j
      {
        assert pages[..j + 1][..j] == pages[..j];
        total := total + 1;
        if pages[j] !in live {
          dead := dead + 1;
        }
      }
      assert pages[..|pages|] == pages;
    }
    assert ids[..|ids|] == ids;
  }

  /** `analyze_dead_space`; the source lists the picked trees by name, and names are unique. */
  method AnalyzeDeadSpace(m: Manifest, trees: seq<Candidate>, threshold: real) returns (candidates: seq<Candidate>)
    ensures candidates == Selected(m, trees, threshold)
    ensures forall c: Candidate :: c in candidates <==> c in trees && IsMostlyDead(m, c, threshold)
  {
    hide DeadInGroups, PagesInGroups, DeadRatio;
    candidates := [];
    for i := 0 to |trees|
      invariant candidates == Selected(m, trees[..i], threshold)
    {
      assert trees[..i + 1][..i] == trees[..i];
      if trees[i].root in m.btrees {
        var dead, total := CountDead(m, m.btrees[trees[i].root].groupIds, trees[i].live);
        if DeadRatio(dead, total) >= threshold {
          candidates := candidates + [trees[i]];
        }
      }
    }
    assert trees[..|trees|] == trees;
    forall c: Candidate
      ensures c in candidates <==> c in trees && IsSelected(m, c, threshold)
    {
      SelectedAre(m, trees, threshold, c);
    }
    forall dead: nat, total: nat
      ensures DeadRatio(dead, total) >= threshold <==> ReachesShare(dead, total, threshold)
    {
      RatioIs(dead, total, threshold);
    }
  }

  predicate IsMostlyDead(m: Manifest, c: Candidate, threshold: real) {
    && c.root in m.btrees
    && var ids := m.btrees[c.root].groupIds;
       ReachesShare(DeadInGroups(m, ids, c.live), PagesInGroups(m, ids), threshold)
  }

  /** At least the threshold's share of all pages is dead; with no pages, the share is zero. */
  predicate ReachesShare(dead: nat, total: nat, threshold: real) {
    if total == 0 then threshold <= 0.0 else dead as real >= threshold * total as real
  }

  lemma RatioIs(dead: nat, total: nat, threshold: real)
    ensures DeadRatio(dead, total) >= threshold <==> ReachesShare(dead, total, threshold)
  {
    if total > 0 {
      var t, r := total as real, dead as real / total as real;
      assert r * t == dead as real;
      if r >= threshold {
        assert (r - threshold) * t >= 0.0;
      } else {
        assert (threshold - r) * t > 0.0;
      }
    }
  }

  lemma {:induction false} SelectedAre(m: Manifest, trees: seq<Candidate>, threshold: real, c: Candidate)
    ensures c in Selected(m, trees, threshold) <==> c in trees && IsSelected(m, c, threshold)
  {
    hide IsSelected;
    if trees != [] {
      SelectedAre(m, trees[..|trees| - 1], threshold, c);
      assert trees == trees[..|trees| - 1] + [trees[|trees| - 1]];
    }
  }

  // ---------- what the counts mean ----------

  lemma {:induction false} FilterCounts(pages: seq<nat>, live: set<nat>)
    ensures DeadIn(pages, live) + |Filter(pages, live)| == |pages|
  {
    if pages != [] {
      FilterCounts(pages[..|pages| - 1], live);
    }
  }

  /** Every page of a tree's groups is dead or collected for packing. */
  lemma {:induction false} DeadAndLiveAddUp(m: Manifest, ids: seq<nat>, live: set<nat>)
    ensures DeadInGroups(m, ids, live) + |Collect(m, ids, live)| == PagesInGroups(m, ids)
  {
    hide PagesAt, Filter, DeadIn;
    if ids != [] {
      DeadAndLiveAddUp(m, ids[..|ids| - 1], live);
      FilterCounts(PagesAt(m, ids[|ids| - 1]), live);
    }
  }

  lemma {:induction false} NoneDead(m: Manifest, ids: seq<nat>, live: set<nat>)
    requires forall g <- ids, p <- PagesAt(m, g) :: p in live
    ensures DeadInGroups(m, ids, live) == 0
  {
    hide PagesAt;
    if ids != [] {
      var init, last := ids[..|ids| - 1], ids[|ids| - 1];
      assert ids == init + [last];
      NoneDead(m, init, live);
      AllLive(PagesAt(m, last), live);
    }
  }

  lemma {:induction false} AllLive(pages: seq<nat>, live: set<nat>)
    requires forall p <- pages :: p in live
    ensures DeadIn(pages, live) == 0
  {
    if pages != [] {
      AllLive(pages[..|pages| - 1], live);
    }
  }

  /** A compacted tree has no dead pages left, so no positive threshold picks it again. */
  lemma CompactedTreeIsClean(m: Manifest, c: Candidate, cache: Cache, codec: Codec, v: nat, r: TreeResult,
                             threshold: real)
    requires TreeStep(m, c.root, c.live, cache, codec, v, r) && threshold > 0.0
    ensures DeadInGroups(r.m, r.ids, c.live) == 0 && !IsSelected(r.m, c, threshold)
  {
    hide TreeStep, PagesAt, DeadInGroups, PagesInGroups, DeadRatio;
    StepIds(m, c, cache, codec, v, r);
    forall g <- r.ids, p <- PagesAt(r.m, g)
      ensures p in c.live
    {
      NewPagesAreLive(m, c, cache, codec, v, r, g, p);
    }
    NoneDead(r.m, r.ids, c.live);
    ZeroRatio(PagesInGroups(r.m, r.ids));
  }

  lemma ZeroRatio(total: nat)
    ensures DeadRatio(0, total) == 0.0
  {
  }

  lemma StepIds(m: Manifest, c: Candidate, cache: Cache, codec: Codec, v: nat, r: TreeResult)
    requires TreeStep(m, c.root, c.live, cache, codec, v, r)
    ensures c.root in r.m.btrees && r.m.btrees[c.root].groupIds == r.ids
  {
    hide PagesAt, KeyAt, TableAt, NewGroups, UploadsFor, OwnGroups, IdsByRule, IdsAssigned;
  }

  lemma NewPagesAreLive(m: Manifest, c: Candidate, cache: Cache, codec: Codec, v: nat, r: TreeResult, g: nat, p: nat)
    requires TreeStep(m, c.root, c.live, cache, codec, v, r) && g in r.ids && p in PagesAt(r.m, g)
    ensures p in c.live
  {
    hide PagesAt, KeyAt, TableAt, Kept, ChunkPages, OwnGroups, UploadsFor, IdsByRule;
    var a :| 0 <= a < |r.ids| && r.ids[a] == g;
    KeptPages(m, TreeIds(m, c.root), c.live);
    ChunkAscends(KeptOf(m, c.root, c.live), m.pagesPerGroup, a);
  }

  lemma ElementsSnoc(init: seq<nat>, last: nat)
    ensures Elements(init + [last]) == Elements(init) + {last}
  {
  }

  lemma OneMoreElement(a: set<nat>, x: nat, live: set<nat>)
    requires x !in a
    ensures |(a + {x}) * live| == |a * live| + if x in live then 1 else 0
  {
    if x in live {
      assert (a + {x}) * live == a * live + {x};
    } else {
      assert (a + {x}) * live == a * live;
    }
  }

  /** In a list without repeats, the live pages are counted by the set. */
  lemma {:induction false} DeadBySet(pages: seq<nat>, live: set<nat>)
    requires Distinct(pages)
    ensures DeadIn(pages, live) + |Elements(pages) * live| == |pages|
  {
    if pages != [] {
      var init, last := pages[..|pages| - 1], pages[|pages| - 1];
      DeadBySet(init, live);
      assert pages == init + [last] && last !in init;
      ElementsSnoc(init, last);
      assert last !in Elements(init);
      hide Elements;
      OneMoreElement(Elements(init), last, live);
    }
  }
}
