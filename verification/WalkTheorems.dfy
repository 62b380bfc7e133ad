/**
 What a walk returns: reachability stated by paths, independently of the walk's queue and
 visited set.
 */
module WalkTheorems {
  import opened Common
  import opened BtreeWalker
  import opened Graphs

  // ---------- reachability ----------

  ghost function NodeGraph(read: Reader): Graph {
    page => set child <- ChildPages(read, page)
  }

  /** `page` is the root or is reached from it through interior child pointers. */
  ghost predicate IsNode(read: Reader, root: nat, page: nat) {
    Reach(NodeGraph(read), root, page)
  }

  ghost function ChainGraph(read: Reader, pageCount: nat): Graph {
    page => match NextOverflow(read, page)
            case None => {}
            case Some(next) => if IsOverflowPage(read, pageCount, next) then {next} else {}
  }

  /** `page` lies on an in-range, readable overflow chain that starts at a cell of leaf `leaf`. */
  ghost predicate OnChainOf(read: Reader, pageCount: nat, pageSize: nat, leaf: nat, page: nat)
    requires pageSize >= 512
  {
    exists head <- HeadPages(read, pageSize, leaf) ::
      IsOverflowPage(read, pageCount, head) && Reach(ChainGraph(read, pageCount), head, page)
  }

  ghost predicate IsOverflow(read: Reader, pageCount: nat, pageSize: nat, root: nat, page: nat)
    requires pageSize >= 512
  {
    exists leaf: nat :: IsNode(read, root, leaf) && OnChainOf(read, pageCount, pageSize, leaf, page)
  }

  /** No page is both a tree node and an overflow page. */
  ghost predicate RolesDisjoint(read: Reader, pageCount: nat, pageSize: nat, root: nat)
    requires pageSize >= 512
  {
    forall page: nat :: IsNode(read, root, page) ==> !IsOverflow(read, pageCount, pageSize, root, page)
  }

  // ---------- one loop of the walk ----------

  /** Enqueueing marks all children and queues the new ones, each once. */
  lemma {:induction false} EnqueueSummary(children: seq<nat>, queue: seq<nat>, visited: set<nat>)
    requires (forall q <- queue :: q in visited) && Distinct(queue)
    ensures var r := Enqueue(children, queue, visited);
            && r.1 == visited + (set c <- children)
            && Distinct(r.0)
            && forall x: nat :: x in r.0 <==> x in queue || (x in children && x !in visited)
  {
    if children != [] {
      var c := children[0];
      assert children == [c] + children[1..];
      assert (set x <- children) == {c} + set x <- children[1..];
      if c in visited {
        EnqueueSummary(children[1..], queue, visited);
      } else {
        EnqueueSummary(children[1..], queue + [c], visited + {c});
      }
    }
  }

  /**
   `more` is what following chains added to the overflow pages already found: pages not seen
   before, recorded once each, closed under the chain.
   */
  ghost predicate Extends(read: Reader, pageCount: nat, visited: set<nat>, pages: seq<nat>, more: set<nat>,
                          visited': set<nat>, pages': seq<nat>)
  {
    && more !! visited && visited' == visited + more
    && (forall x: nat :: x in pages' <==> x in pages || x in more)
    && (Distinct(pages) && (forall p <- pages :: p in visited) ==> Distinct(pages'))
    && (forall x <- more :: IsOverflowPage(read, pageCount, x))
    && (forall x <- more :: ChainGraph(read, pageCount)(x) <= visited')
  }

  lemma {:induction false} ChainSummary(read: Reader, pageCount: nat, head: nat, visited: set<nat>, pages: seq<nat>)
    returns (more: set<nat>)
    requires head < TWO_32
    ensures var r := FollowChain(read, pageCount, head, visited, pages);
            Extends(read, pageCount, visited, pages, more, r.0, r.1)
    ensures IsOverflowPage(read, pageCount, head) ==> head in visited + more
    ensures forall x <- more :: Reach(ChainGraph(read, pageCount), head, x)
    decreases Unseen(visited)
  {
    var g := ChainGraph(read, pageCount);
    if head in visited || !IsOverflowPage(read, pageCount, head) {
      more := {};
    } else {
      ReachSelf(g, head);
      assert head in Unseen(visited) && head !in Unseen(visited + {head});
      match NextOverflow(read, head) {
        case None =>
          more := {head};
        case Some(next) =>
          var rest := ChainSummary(read, pageCount, next, visited + {head}, pages + [head]);
          more := rest + {head};
          forall x <- rest
            ensures Reach(g, head, x)
          {
            if IsOverflowPage(read, pageCount, next) {
              ReachFirst(g, head, next, x);
            }
          }
      }
    }
  }

  lemma {:induction false} ChainsSummary(read: Reader, pageCount: nat, heads: seq<nat>, visited: set<nat>,
                                         pages: seq<nat>)
    returns (more: set<nat>)
    requires forall k :: 0 <= k < |heads| ==> heads[k] < TWO_32
    ensures var r := FollowChains(read, pageCount, heads, visited, pages);
            Extends(read, pageCount, visited, pages, more, r.0, r.1)
    ensures forall h <- heads :: IsOverflowPage(read, pageCount, h) ==> h in visited + more
    ensures forall x <- more :: exists h <- heads ::
              IsOverflowPage(read, pageCount, h) && Reach(ChainGraph(read, pageCount), h, x)
  {
    if heads == [] {
      more := {};
    } else {
      var first := ChainSummary(read, pageCount, heads[0], visited, pages);
      var (v, p) := FollowChain(read, pageCount, heads[0], visited, pages);
      var rest := ChainsSummary(read, pageCount, heads[1..], v, p);
      more := first + rest;
      ChainStartsInRange(read, pageCount, heads[0], visited, pages, first);
      assert heads == [heads[0]] + heads[1..];
    }
  }

  /** A chain whose head is out of range or unreadable adds nothing. */
  lemma {:induction false} ChainStartsInRange(read: Reader, pageCount: nat, head: nat, visited: set<nat>,
                                              pages: seq<nat>, more: set<nat>)
    requires head < TWO_32
    requires more !! visited && FollowChain(read, pageCount, head, visited, pages).0 == visited + more
    ensures more != {} ==> IsOverflowPage(read, pageCount, head)
  {
    if !IsOverflowPage(read, pageCount, head) {
      assert visited + more == visited;
      assert more == {};
    }
  }

  // ---------- the whole walk ----------

  /** Each page is recorded once: overflow pages at once, readable nodes when popped. */
  ghost predicate Recorded(read: Reader, queue: seq<nat>, pages: seq<nat>, nodes: set<nat>, ovfl: set<nat>) {
    && nodes !! ovfl
    && Distinct(queue) && (forall q <- queue :: q in nodes)
    && Distinct(pages)
    && (forall x: nat :: x in pages <==> x in ovfl || (x in nodes && x !in queue && read(x).Some?))
  }

  ghost predicate InTree(read: Reader, pageCount: nat, pageSize: nat, root: nat, nodes: set<nat>, ovfl: set<nat>)
    requires pageSize >= 512
  {
    && (forall x <- nodes :: IsNode(read, root, x))
    && (forall x <- ovfl :: IsOverflowPage(read, pageCount, x) && IsOverflow(read, pageCount, pageSize, root, x))
  }

  /** All that a handled page points to has been visited. */
  ghost predicate Handled(read: Reader, pageCount: nat, pageSize: nat, page: nat, visited: set<nat>)
    requires pageSize >= 512
  {
    && NodeGraph(read)(page) <= visited
    && (forall h <- HeadPages(read, pageSize, page) :: IsOverflowPage(read, pageCount, h) ==> h in visited)
  }

  ghost predicate Closed(read: Reader, pageCount: nat, pageSize: nat, queue: seq<nat>, nodes: set<nat>, ovfl: set<nat>)
    requires pageSize >= 512
  {
    && (forall x <- nodes :: x in queue || Handled(read, pageCount, pageSize, x, nodes + ovfl))
    && (forall x <- ovfl :: ChainGraph(read, pageCount)(x) <= nodes + ovfl)
  }

  /** The walk's state between two pops: `nodes` and `ovfl` split what was visited by role. */
  ghost predicate WalkInv(read: Reader, pageCount: nat, pageSize: nat, root: nat, queue: seq<nat>, pages: seq<nat>,
                          nodes: set<nat>, ovfl: set<nat>)
    requires pageSize >= 512
  {
    && root in nodes
    && Recorded(read, queue, pages, nodes, ovfl)
    && InTree(read, pageCount, pageSize, root, nodes, ovfl)
    && Closed(read, pageCount, pageSize, queue, nodes, ovfl)
  }

  lemma PopRecords(read: Reader, pageCount: nat, queue: seq<nat>, pages: seq<nat>, nodes: set<nat>, ovfl: set<nat>,
                   found: set<nat>, q: seq<nat>, more: set<nat>, pages': seq<nat>)
    requires queue != [] && read(queue[0]).Some? && Recorded(read, queue, pages, nodes, ovfl)
    requires found !! nodes + ovfl && Distinct(q) && forall x: nat :: x in q <==> x in queue[1..] || x in found
    requires Extends(read, pageCount, nodes + ovfl + found, pages + [queue[0]], more, nodes + ovfl + found + more,
      pages')
    ensures Recorded(read, q, pages', nodes + found, ovfl + more)
  {
    assert queue == [queue[0]] + queue[1..];
    assert queue[0] !in pages;
    forall x: nat
      ensures x in pages' <==> x in ovfl + more || (x in nodes + found && x !in q && read(x).Some?)
    {
      assert x in pages + [queue[0]] <==> x in pages || x == queue[0];
      assert x in queue <==> x == queue[0] || x in queue[1..];
    }
  }

  /** Popping and handling one readable page keeps the invariant. */
  lemma PopKeepsInv(read: Reader, pageCount: nat, pageSize: nat, root: nat, queue: seq<nat>, pages: seq<nat>,
                    nodes: set<nat>, ovfl: set<nat>) returns (nodes': set<nat>, ovfl': set<nat>)
    requires pageSize >= 512 && queue != [] && read(queue[0]).Some?
    requires WalkInv(read, pageCount, pageSize, root, queue, pages, nodes, ovfl)
    ensures var page := queue[0];
            var (q, v) := Enqueue(ChildPages(read, page), queue[1..], nodes + ovfl);
            var (v', p') := FollowChains(read, pageCount, HeadPages(read, pageSize, page), v, pages + [page]);
            WalkInv(read, pageCount, pageSize, root, q, p', nodes', ovfl') && v' == nodes' + ovfl'
  {
    var page, rest := queue[0], queue[1..];
    var children, heads := ChildPages(read, page), HeadPages(read, pageSize, page);
    assert queue == [page] + rest;
    EnqueueSummary(children, rest, nodes + ovfl);
    var (q, v) := Enqueue(children, rest, nodes + ovfl);
    var found := v - (nodes + ovfl);
    assert v == nodes + ovfl + found;
    var more := ChainsSummary(read, pageCount, heads, v, pages + [page]);
    var (v', p') := FollowChains(read, pageCount, heads, v, pages + [page]);
    nodes' := nodes + found;
    ovfl' := ovfl + more;
    assert v' == nodes' + ovfl';
    PopRecords(read, pageCount, queue, pages, nodes, ovfl, found, q, more, p');
    PopStaysInTree(read, pageCount, pageSize, root, page, nodes, ovfl, found, more);
    assert Handled(read, pageCount, pageSize, page, v');
    forall x <- nodes'
      ensures x in q || Handled(read, pageCount, pageSize, x, v')
    {
      if x in nodes && x !in queue {
        assert Handled(read, pageCount, pageSize, x, nodes + ovfl);
      }
    }
  }

  lemma PopStaysInTree(read: Reader, pageCount: nat, pageSize: nat, root: nat, page: nat,
                       nodes: set<nat>, ovfl: set<nat>, found: set<nat>, more: set<nat>)
    requires pageSize >= 512 && page in nodes && InTree(read, pageCount, pageSize, root, nodes, ovfl)
    requires forall x <- found :: x in ChildPages(read, page)
    requires forall x <- more :: IsOverflowPage(read, pageCount, x)
    requires forall x <- more :: exists h <- HeadPages(read, pageSize, page) ::
               IsOverflowPage(read, pageCount, h) && Reach(ChainGraph(read, pageCount), h, x)
    ensures InTree(read, pageCount, pageSize, root, nodes + found, ovfl + more)
  {
    forall x <- found
      ensures IsNode(read, root, x)
    {
      ReachStep(NodeGraph(read), root, page, x);
    }
    forall x <- more
      ensures IsOverflow(read, pageCount, pageSize, root, x)
    {
      assert OnChainOf(read, pageCount, pageSize, page, x);
    }
  }

  /** A walk continued from an invariant state ends in one, with nothing left to do. */
  lemma {:induction false} WalkFinishes(read: Reader, pageCount: nat, pageSize: nat, root: nat, queue: seq<nat>,
                                        pages: seq<nat>,
                                        nodes: set<nat>, ovfl: set<nat>) returns (nodes': set<nat>, ovfl': set<nat>)
    requires pageSize >= 512 && WalkInv(read, pageCount, pageSize, root, queue, pages, nodes, ovfl)
    ensures WalkInv(read, pageCount, pageSize, root, [],
                    WalkFrom(read, pageCount, pageSize, queue, nodes + ovfl, pages), nodes', ovfl')
    decreases Unseen(nodes + ovfl), |queue|
  {
    if queue == [] {
      nodes', ovfl' := nodes, ovfl;
    } else {
      var page, rest := queue[0], queue[1..];
      assert queue == [page] + rest;
      if read(page).None? {
        nodes', ovfl' := WalkFinishes(read, pageCount, pageSize, root, rest, pages, nodes, ovfl);
      } else {
        var n, o := PopKeepsInv(read, pageCount, pageSize, root, queue, pages, nodes, ovfl);
        EnqueueShrinksUnseen(ChildPages(read, page), rest, nodes + ovfl);
        var (q, v) := Enqueue(ChildPages(read, page), rest, nodes + ovfl);
        var (v', p') := FollowChains(read, pageCount, HeadPages(read, pageSize, page), v, pages + [page]);
        assert Unseen(v') <= Unseen(v);
        nodes', ovfl' := WalkFinishes(read, pageCount, pageSize, root, q, p', n, o);
      }
    }
  }

  lemma WalkOutcome(read: Reader, pageCount: nat, pageSize: nat, root: nat) returns (nodes: set<nat>, ovfl: set<nat>)
    requires pageSize >= 512
    ensures WalkInv(read, pageCount, pageSize, root, [],
                    WalkFrom(read, pageCount, pageSize, [root], {root}, []), nodes, ovfl)
    ensures StrictlyAscending(Walk(read, pageCount, pageSize, root))
    ensures forall x: nat :: x in Walk(read, pageCount, pageSize, root) <==>
              x in ovfl || (x in nodes && read(x).Some?)
  {
    ReachSelf(NodeGraph(read), root);
    assert {root} + {} == {root};
    nodes, ovfl := WalkFinishes(read, pageCount, pageSize, root, [root], [], {root}, {});
    SortAscends(WalkFrom(read, pageCount, pageSize, [root], {root}, []));
  }

  // ---------- the theorems ----------

  /**
   On every page image, cyclic or corrupt, the walk ends with a strictly ascending list of
   readable pages that belong to the tree; a page past the live page count is there only if a
   child pointer names it.
   */
  lemma WalkIsSound(read: Reader, pageCount: nat, pageSize: nat, root: nat)
    requires pageSize >= 512
    ensures StrictlyAscending(Walk(read, pageCount, pageSize, root))
    ensures forall x <- Walk(read, pageCount, pageSize, root) ::
              && read(x).Some?
              && (IsNode(read, root, x) || (x < pageCount && IsOverflow(read, pageCount, pageSize, root, x)))
  {
    var nodes, ovfl := WalkOutcome(read, pageCount, pageSize, root);
  }

  /** With no page in both roles, the walk returns exactly the readable nodes and the overflow pages. */
  lemma WalkIsExact(read: Reader, pageCount: nat, pageSize: nat, root: nat)
    requires pageSize >= 512 && RolesDisjoint(read, pageCount, pageSize, root)
    ensures forall x: nat :: x in Walk(read, pageCount, pageSize, root) <==>
              (IsNode(read, root, x) && read(x).Some?) || IsOverflow(read, pageCount, pageSize, root, x)
  {
    var nodes, ovfl := WalkOutcome(read, pageCount, pageSize, root);
    forall y <- nodes, z <- NodeGraph(read)(y)
      ensures z in nodes
    {
      assert Handled(read, pageCount, pageSize, y, nodes + ovfl);
      ReachStep(NodeGraph(read), root, y, z);
    }
    forall x: nat | IsNode(read, root, x)
      ensures x in nodes
    {
      ReachStaysInside(NodeGraph(read), root, x, nodes);
    }
    forall x: nat | IsOverflow(read, pageCount, pageSize, root, x)
      ensures x in ovfl
    {
      OverflowIsFound(read, pageCount, pageSize, root, nodes, ovfl, x);
    }
  }

  lemma OverflowIsFound(read: Reader, pageCount: nat, pageSize: nat, root: nat, nodes: set<nat>, ovfl: set<nat>, x: nat)
    requires pageSize >= 512 && RolesDisjoint(read, pageCount, pageSize, root)
    requires exists pages: seq<nat> :: WalkInv(read, pageCount, pageSize, root, [], pages, nodes, ovfl)
    requires forall y: nat :: IsNode(read, root, y) ==> y in nodes
    requires IsOverflow(read, pageCount, pageSize, root, x)
    ensures x in ovfl
  {
    var g := ChainGraph(read, pageCount);
    var leaf: nat :| IsNode(read, root, leaf) && OnChainOf(read, pageCount, pageSize, leaf, x);
    var head :| head in HeadPages(read, pageSize, leaf) && IsOverflowPage(read, pageCount, head) && Reach(g, head, x);
    ReachSelf(g, head);
    assert OnChainOf(read, pageCount, pageSize, leaf, head);
    assert Handled(read, pageCount, pageSize, leaf, nodes + ovfl);
    assert head in ovfl;
    forall y <- ovfl, z <- g(y)
      ensures z in ovfl
    {
      ChainStaysOverflow(read, pageCount, pageSize, root, y, z);
    }
    ReachStaysInside(g, head, x, ovfl);
  }

  lemma ChainStaysOverflow(read: Reader, pageCount: nat, pageSize: nat, root: nat, y: nat, z: nat)
    requires pageSize >= 512 && IsOverflow(read, pageCount, pageSize, root, y) && z in ChainGraph(read, pageCount)(y)
    ensures IsOverflow(read, pageCount, pageSize, root, z)
  {
    var g := ChainGraph(read, pageCount);
    var leaf: nat :| IsNode(read, root, leaf) && OnChainOf(read, pageCount, pageSize, leaf, y);
    var head :| head in HeadPages(read, pageSize, leaf) && IsOverflowPage(read, pageCount, head) && Reach(g, head, y);
    ReachStep(g, head, y, z);
    assert OnChainOf(read, pageCount, pageSize, leaf, z);
  }

  /** One turn of the walk, its loops' results given. */
  lemma {:induction false} WalkTurn(read: Reader, pageCount: nat, pageSize: nat, queue: seq<nat>, visited: set<nat>,
                                    pages: seq<nat>,
                 q: seq<nat>, v: set<nat>)
    requires pageSize >= 512 && queue != [] && read(queue[0]).Some?
    requires Enqueue(ChildPages(read, queue[0]), queue[1..], visited) == (q, v)
    requires FollowChains(read, pageCount, HeadPages(read, pageSize, queue[0]), v, pages + [queue[0]]) ==
             (v, pages + [queue[0]])
    ensures WalkFrom(read, pageCount, pageSize, queue, visited, pages) ==
            WalkFrom(read, pageCount, pageSize, q, v, pages + [queue[0]])
  {
    hide ChildPages, HeadPages, Enqueue, FollowChains;
  }

  lemma {:induction false} EnqueuePair(a: nat, b: nat, visited: set<nat>)
    requires a !in visited && b !in visited && a != b
    ensures Enqueue([a, b], [], visited) == ([a, b], visited + {a, b})
  {
    assert [a, b][1..] == [b] && [] + [a] == [a] && [a] + [b] == [a, b];
    assert visited + {a} + {b} == visited + {a, b};
    assert Enqueue([b], [a], visited + {a}) == Enqueue([], [a, b], visited + {a, b});
  }

  lemma {:induction false} OverlapIsWalked(read: Reader, pageCount: nat, pageSize: nat, root: nat, a: nat, b: nat)
    requires pageSize >= 512 && root != a && root != b && a != b
    requires read(root).Some? && read(a).Some? && read(b).Some?
    requires ChildPages(read, root) == [a, b] && HeadPages(read, pageSize, root) == []
    requires ChildPages(read, a) == [] && HeadPages(read, pageSize, a) == [b]
    requires ChildPages(read, b) == [] && HeadPages(read, pageSize, b) == []
    ensures WalkFrom(read, pageCount, pageSize, [root], {root}, []) == [root, a, b]
  {
    hide ChildPages, HeadPages;
    hide NextOverflow;
    EnqueuePair(a, b, {root});
    var v := {root} + {a, b};
    assert [root][1..] == [] && [a, b][1..] == [b] && [b][1..] == [];
    assert [] + [root] == [root] && [root] + [a] == [root, a] && [root, a] + [b] == [root, a, b];
    assert FollowChains(read, pageCount, [b], v, [root, a]) == (v, [root, a]);
    WalkTurn(read, pageCount, pageSize, [root], {root}, [], [a, b], v);
    WalkTurn(read, pageCount, pageSize, [a, b], v, [root], [b], v);
    WalkTurn(read, pageCount, pageSize, [b], v, [root, a], [], v);
  }

  /**
   Disjoint roles are needed. A root has children `a` and `b`; a cell of leaf `a` spills to `b`,
   whose chain goes on to `c`. Since `b` was already queued as a node, its chain is not followed
   and the overflow page `c` is left out.
   */
  lemma OverlapHidesChain(read: Reader, pageCount: nat, pageSize: nat, root: nat, a: nat, b: nat, c: nat)
    requires pageSize >= 512 && root != a && root != b && a != b && c != root && c != a && c != b
    requires read(root).Some? && read(a).Some? && IsOverflowPage(read, pageCount, b)
    requires IsOverflowPage(read, pageCount, c)
    requires ChildPages(read, root) == [a, b] && HeadPages(read, pageSize, root) == []
    requires ChildPages(read, a) == [] && HeadPages(read, pageSize, a) == [b]
    requires ChildPages(read, b) == [] && HeadPages(read, pageSize, b) == [] && NextOverflow(read, b) == Some(c)
    ensures IsOverflow(read, pageCount, pageSize, root, c)
    ensures c !in Walk(read, pageCount, pageSize, root)
    ensures !RolesDisjoint(read, pageCount, pageSize, root)
  {
    hide ChildPages, HeadPages, NextOverflow, WalkFrom, IsOverflow, IsNode;
    OverlapReaches(read, pageCount, pageSize, root, a, b, c);
    OverlapIsWalked(read, pageCount, pageSize, root, a, b);
    SortAscends([root, a, b]);
  }

  /** In that tree `b` is a node and an overflow page, and `c` an overflow page. */
  lemma OverlapReaches(read: Reader, pageCount: nat, pageSize: nat, root: nat, a: nat, b: nat, c: nat)
    requires pageSize >= 512 && IsOverflowPage(read, pageCount, b) && IsOverflowPage(read, pageCount, c)
    requires ChildPages(read, root) == [a, b] && HeadPages(read, pageSize, a) == [b] && NextOverflow(read, b) == Some(c)
    ensures IsNode(read, root, b) && IsOverflow(read, pageCount, pageSize, root, b)
    ensures IsOverflow(read, pageCount, pageSize, root, c)
  {
    hide ChildPages, HeadPages, NextOverflow, Reach;
    var g, chain := NodeGraph(read), ChainGraph(read, pageCount);
    ReachSelf(g, root);
    ReachStep(g, root, root, a);
    ReachStep(g, root, root, b);
    ReachSelf(chain, b);
    ReachStep(chain, b, b, c);
    assert b in [b];
    assert OnChainOf(read, pageCount, pageSize, a, c) && OnChainOf(read, pageCount, pageSize, a, b);
  }
}
