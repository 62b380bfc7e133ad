/**
 `walk_btree` (src/btree_walker.rs:106-191): a breadth-first walk of one B-tree that also
 follows the overflow chains of its leaf cells. `Walk` states what the loops compute, as tail
 recursion on the same queue, visited set and page list.
 */
module BtreeWalker {
  import opened Common
  import opened SqliteFormat
  import opened BtreePages
  import opened Graphs

  const TWO_32: nat := 0x1_0000_0000

  /** The `read_page` closure: page number to page bytes. */
  type Reader = nat -> Option<seq<Byte>>

  /** Page numbers below 2^32 not yet visited: what every step of the walk uses up. */
  ghost function Unseen(visited: set<nat>): set<nat> {
    set p: nat | p < TWO_32 && p !in visited
  }

  // ---------- what one page points to ----------

  /** Long enough for a B-tree page header, as the walk demands of every page. */
  predicate HasHeader(buf: seq<Byte>, page: nat) {
    |buf| >= HeaderOffset(page) + 12
  }

  function PageType(buf: seq<Byte>, page: nat): Byte
    requires HasHeader(buf, page)
  {
    buf[HeaderOffset(page)]
  }

  function ZeroBased(pages: seq<nat>): (r: seq<nat>)
    requires forall k :: 0 <= k < |pages| ==> pages[k] < TWO_32
    ensures forall k :: 0 <= k < |r| ==> r[k] < TWO_32
  {
    if pages == [] then []
    else if pages[0] == 0 then ZeroBased(pages[1..])
    else [pages[0] - 1] + ZeroBased(pages[1..])
  }

  lemma {:induction false} ZeroBasedMembers(pages: seq<nat>, p: nat)
    requires forall k :: 0 <= k < |pages| ==> pages[k] < TWO_32
    ensures p in ZeroBased(pages) <==> p + 1 in pages
  {
    if pages != [] {
      ZeroBasedMembers(pages[1..], p);
      assert pages == [pages[0]] + pages[1..];
    }
  }

  /** Child pages (0-based, in order) of a page, if it is a readable interior page. */
  function ChildPages(read: Reader, page: nat): (r: seq<nat>)
    ensures forall k :: 0 <= k < |r| ==> r[k] < TWO_32
  {
    match read(page)
    case None => []
    case Some(buf) =>
      if HasHeader(buf, page) && PageType(buf, page) in {INTERIOR_INDEX, INTERIOR_TABLE}
      then ZeroBased(InteriorChildren(buf, HeaderOffset(page)))
      else []
  }

  /** First overflow pages (0-based, in order) of the cells of a page, if it is a readable leaf. */
  function HeadPages(read: Reader, pageSize: nat, page: nat): (r: seq<nat>)
    requires pageSize >= 512
    ensures forall k :: 0 <= k < |r| ==> r[k] < TWO_32
  {
    match read(page)
    case None => []
    case Some(buf) =>
      if HasHeader(buf, page) && PageType(buf, page) in {LEAF_INDEX, LEAF_TABLE}
      then
        LeafOverflowsInRange(buf, page, pageSize);
        ZeroBased(LeafOverflows(buf, HeaderOffset(page), pageSize, PageType(buf, page) == LEAF_TABLE))
      else []
  }

  lemma LeafOverflowsInRange(buf: seq<Byte>, page: nat, pageSize: nat)
    requires HasHeader(buf, page) && pageSize >= 512
    ensures var r := LeafOverflows(buf, HeaderOffset(page), pageSize, PageType(buf, page) == LEAF_TABLE);
            forall k :: 0 <= k < |r| ==> r[k] < TWO_32
  {
    var hdr, isTable := HeaderOffset(page), PageType(buf, page) == LEAF_TABLE;
    var r := LeafOverflows(buf, hdr, pageSize, isTable);
    forall k | 0 <= k < |r|
      ensures r[k] < TWO_32
    {
      OverflowsInRange(buf, hdr + 8, Min(CellCount(buf, hdr), PointerRoom(buf, hdr + 8)),
                       CellReader(buf, pageSize, isTable), r[k]);
    }
  }

  /** The next page of an overflow chain, read from the first four bytes. */
  function NextOverflow(read: Reader, page: nat): (r: Option<nat>)
    ensures r.Some? ==> r.value < TWO_32
  {
    match read(page)
    case None => None
    case Some(buf) => if |buf| >= 4 && U32(buf, 0) != 0 then Some(U32(buf, 0) - 1) else None
  }

  /** Overflow pointers count only when in range and readable. */
  predicate IsOverflowPage(read: Reader, pageCount: nat, page: nat) {
    page < pageCount && read(page).Some?
  }

  // ---------- the walk ----------

  /** Enqueue every child not seen before. */
  function Enqueue(children: seq<nat>, queue: seq<nat>, visited: set<nat>): (r: (seq<nat>, set<nat>)) {
    if children == [] then (queue, visited)
    else if children[0] in visited then Enqueue(children[1..], queue, visited)
    else Enqueue(children[1..], queue + [children[0]], visited + {children[0]})
  }

  function FollowChain(read: Reader, pageCount: nat, page: nat, visited: set<nat>,
                       pages: seq<nat>): (r: (set<nat>, seq<nat>))
    requires page < TWO_32
    ensures visited <= r.0
    decreases Unseen(visited)
  {
    if page in visited || !IsOverflowPage(read, pageCount, page) then (visited, pages)
    else
      assert page in Unseen(visited) && page !in Unseen(visited + {page});
      match NextOverflow(read, page)
      case None => (visited + {page}, pages + [page])
      case Some(next) => FollowChain(read, pageCount, next, visited + {page}, pages + [page])
  }

  function FollowChains(read: Reader, pageCount: nat, heads: seq<nat>, visited: set<nat>,
                        pages: seq<nat>): (r: (set<nat>, seq<nat>))
    requires forall k :: 0 <= k < |heads| ==> heads[k] < TWO_32
    ensures visited <= r.0
  {
    if heads == [] then (visited, pages)
    else
      var (v, p) := FollowChain(read, pageCount, heads[0], visited, pages);
      FollowChains(read, pageCount, heads[1..], v, p)
  }

  lemma {:induction false} EnqueueShrinksUnseen(children: seq<nat>, queue: seq<nat>, visited: set<nat>)
    requires forall k :: 0 <= k < |children| ==> children[k] < TWO_32
    ensures var r := Enqueue(children, queue, visited);
            && visited <= r.1
            && (r == (queue, visited) || Unseen(r.1) < Unseen(visited))
  {
    if children != [] {
      var c := children[0];
      if c in visited {
        EnqueueShrinksUnseen(children[1..], queue, visited);
      } else {
        EnqueueShrinksUnseen(children[1..], queue + [c], visited + {c});
        assert c in Unseen(visited) && c !in Unseen(visited + {c});
        assert Unseen(visited + {c}) <= Unseen(visited);
      }
    }
  }

  /** The pages found from this point of the walk on, in the order they are recorded. */
  function WalkFrom(read: Reader, pageCount: nat, pageSize: nat, queue: seq<nat>, visited: set<nat>,
                    pages: seq<nat>): seq<nat>
    requires pageSize >= 512
    decreases Unseen(visited), |queue|
  {
    if queue == [] then pages
    else
      var page, rest := queue[0], queue[1..];
      if read(page).None? then WalkFrom(read, pageCount, pageSize, rest, visited, pages)
      else
        EnqueueShrinksUnseen(ChildPages(read, page), rest, visited);
        var (q, v) := Enqueue(ChildPages(read, page), rest, visited);
        var (v', p') := FollowChains(read, pageCount, HeadPages(read, pageSize, page), v, pages + [page]);
        assert Unseen(v') <= Unseen(v);
        WalkFrom(read, pageCount, pageSize, q, v', p')
  }

  function Walk(read: Reader, pageCount: nat, pageSize: nat, root: nat): seq<nat>
    requires pageSize >= 512
  {
    Sort(WalkFrom(read, pageCount, pageSize, [root], {root}, []))
  }

  /** src/btree_walker.rs:106-191 */
  method WalkBtree(root: nat, pageCount: nat, pageSize: nat, read: Reader) returns (pages: seq<nat>)
    requires pageSize >= 512
    ensures pages == Walk(read, pageCount, pageSize, root)
  {
    pages := [];
    var queue, visited := [root], {root};
    while queue != []
      invariant WalkFrom(read, pageCount, pageSize, queue, visited, pages) ==
                WalkFrom(read, pageCount, pageSize, [root], {root}, [])
      decreases Unseen(visited), |queue|
    {
      ghost var queue0, visited0, pages0 := queue, visited, pages;
      var page := queue[0];
      queue := queue[1..];
      var buf := read(page);
      if buf.None? {
        continue;
      }
      pages := pages + [page];
      EnqueueShrinksUnseen(ChildPages(read, page), queue, visited);
      var hdr := if page == 0 then 100 else 0;
      if |buf.value| >= hdr + 12 {
        var typeByte := buf.value[hdr];
        if typeByte == INTERIOR_INDEX || typeByte == INTERIOR_TABLE {
          var children := ExtractInteriorChildren(buf.value, hdr);
          queue, visited := EnqueueChildren(children, queue, visited);
        } else if typeByte == LEAF_INDEX || typeByte == LEAF_TABLE {
          var heads := ExtractLeafOverflowPages(buf.value, hdr, pageSize, typeByte);
          LeafOverflowsInRange(buf.value, page, pageSize);
          visited, pages := FollowOverflow(read, pageCount, heads, visited, pages);
          assert Unseen(visited) <= Unseen(visited0);
        }
      }
    }
    pages := Sort(pages);
  }

  /** The child loop, src/btree_walker.rs:136-144; children are 1-based. */
  method EnqueueChildren(children: seq<nat>, queue0: seq<nat>, visited0: set<nat>)
    returns (queue: seq<nat>, visited: set<nat>)
    requires forall k :: 0 <= k < |children| ==> children[k] < TWO_32
    ensures (queue, visited) == Enqueue(ZeroBased(children), queue0, visited0)
  {
    queue, visited := queue0, visited0;
    for i := 0 to |children|
      invariant Enqueue(ZeroBased(children[i..]), queue, visited) == Enqueue(ZeroBased(children), queue0, visited0)
    {
      assert children[i..][1..] == children[i + 1..];
      if children[i] != 0 {
        var child := children[i] - 1;
        assert ZeroBased(children[i..])[1..] == ZeroBased(children[i + 1..]);
        if child !in visited {
          visited := visited + {child};
          queue := queue + [child];
        }
      }
    }
  }

  /** The overflow loops, src/btree_walker.rs:150-179; heads are 1-based. */
  method FollowOverflow(read: Reader, pageCount: nat, heads: seq<nat>, visited0: set<nat>, pages0: seq<nat>)
    returns (visited: set<nat>, pages: seq<nat>)
    requires forall k :: 0 <= k < |heads| ==> heads[k] < TWO_32
    ensures (visited, pages) == FollowChains(read, pageCount, ZeroBased(heads), visited0, pages0)
  {
    visited, pages := visited0, pages0;
    for i := 0 to |heads|
      invariant FollowChains(read, pageCount, ZeroBased(heads[i..]), visited, pages) ==
                FollowChains(read, pageCount, ZeroBased(heads), visited0, pages0)
    {
      assert heads[i..][1..] == heads[i + 1..];
      if heads[i] != 0 {
        assert ZeroBased(heads[i..])[1..] == ZeroBased(heads[i + 1..]);
        visited, pages := FollowOneChain(read, pageCount, heads[i] - 1, visited, pages);
      }
    }
  }

  method FollowOneChain(read: Reader, pageCount: nat, head: nat, visited0: set<nat>, pages0: seq<nat>)
    returns (visited: set<nat>, pages: seq<nat>)
    requires head < TWO_32
    ensures (visited, pages) == FollowChain(read, pageCount, head, visited0, pages0)
  {
    visited, pages := visited0, pages0;
    var page: nat := head;
    while page !in visited && page < pageCount
      invariant page < TWO_32
      invariant FollowChain(read, pageCount, page, visited, pages) ==
                FollowChain(read, pageCount, head, visited0, pages0)
      decreases Unseen(visited)
    {
      var buf := read(page);
      if buf.None? {
        break;
      }
      assert page in Unseen(visited) && page !in Unseen(visited + {page});
      visited := visited + {page};
      pages := pages + [page];
      if |buf.value| >= 4 {
        var next := U32(buf.value, 0);
        if next == 0 {
          break;
        }
        page := next - 1;
      } else {
        break;
      }
    }
  }
}
