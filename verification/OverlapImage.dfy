/**
 An image of 512-byte pages on which the walk misses one (src/btree_walker.rs:150-179): the
 root's second child is also the first overflow page of a cell of its first child.
 */
module OverlapImage {
  import opened Common
  import opened SqliteFormat
  import opened Integers
  import opened BtreePages
  import opened BtreeWalker
  import opened WalkTheorems

  /** A table-interior page with rightmost child 3 and one cell, whose child is 4. */
  const ROOT: seq<Byte> := [0x05, 0, 0, 0, 1, 0, 0, 0, 0, 0, 0, 3, 0, 14, 0, 0, 0, 4, 1] + Zeros(493)

  /** An index leaf with one cell: 103 bytes of payload, 39 of them here, the rest from page 4 on. */
  const LEAF: seq<Byte> := [0x0A, 0, 0, 0, 1, 0, 0, 0, 0, 10, 103] + Zeros(39) + [0, 0, 0, 4] + Zeros(458)

  /** An overflow page that names page 5 as the next. */
  const SPILL: seq<Byte> := [0, 0, 0, 5] + Zeros(508)

  const LAST: seq<Byte> := Zeros(512)

  function Image(): Reader {
    (page: nat) =>
      if page == 1 then Some(ROOT) else if page == 2 then Some(LEAF)
      else if page == 3 then Some(SPILL) else if page == 4 then Some(LAST) else None
  }

  lemma {:induction false} ZeroBasedFirst(page: nat, rest: seq<nat>)
    requires 0 < page < TWO_32 && forall k :: 0 <= k < |rest| ==> rest[k] < TWO_32
    ensures ZeroBased([page] + rest) == [page - 1] + ZeroBased(rest)
  {
    assert ([page] + rest)[1..] == rest;
  }

  lemma NoZeroBased()
    ensures ZeroBased([]) == []
  {
  }

  lemma RootPointers()
    ensures InteriorChildren(ROOT, 0) == [3, 4]
  {
    assert U32(ROOT, 8) == 3 && CellOffset(ROOT, 12, 0) == 14 && U32(ROOT, 14) == 4;
    assert CellCount(ROOT, 0) == 1 && PointerRoom(ROOT, 12) == 250;
    assert CellChildren(ROOT, 12, 0) == [];
    assert CellChildren(ROOT, 12, 1) == [4];
  }

  lemma RootChildren()
    ensures ChildPages(Image(), 1) == [2, 3] && HeadPages(Image(), 512, 1) == []
  {
    RootPointers();
    hide InteriorChildren, ZeroBased;
    ZeroBasedFirst(3, [4]);
    ZeroBasedFirst(4, []);
    NoZeroBased();
    assert [3] + [4] == [3, 4] && [4] + [] == [4] && [2] + [3] == [2, 3];
  }

  /** The one cell of the leaf spills, and its page number stands after the local part. */
  lemma LeafCellSpills()
    ensures CellOverflow(LEAF, 10, 512, false) == Some(4)
  {
    assert LEAF[10..][0] == 103;
    WalkerLastByte(LEAF[10..], 0, 0);
    assert WalkerVarint(LEAF[10..]) == (103, 1);
    assert LocalLimit(512, false) == 102 && LocalPart(103, 512, false) == 39;
    assert |LEAF| == 512 && LEAF[50] == 0 && LEAF[51] == 0 && LEAF[52] == 0 && LEAF[53] == 4;
  }

  lemma LeafHeads()
    ensures ChildPages(Image(), 2) == [] && HeadPages(Image(), 512, 2) == [3]
  {
    LeafCellSpills();
    hide CellOverflow, ZeroBased;
    assert |LEAF| == 512 && LEAF[3] == 0 && LEAF[4] == 1 && LEAF[8] == 0 && LEAF[9] == 10;
    var cell := CellReader(LEAF, 512, false);
    assert CellOffset(LEAF, 8, 0) == 10 && CellCount(LEAF, 0) == 1;
    assert CellOverflows(LEAF, 8, 0, cell) == [];
    assert CellOverflows(LEAF, 8, 1, cell) == [4];
    assert LeafOverflows(LEAF, 0, 512, false) == [4];
    ZeroBasedFirst(4, []);
    NoZeroBased();
    assert [4] + [] == [4];
  }

  lemma SpillPage()
    ensures ChildPages(Image(), 3) == [] && HeadPages(Image(), 512, 3) == [] && NextOverflow(Image(), 3) == Some(4)
  {
  }

  /** Page 4 of the image lies on an overflow chain of the tree at root 1, and the walk leaves it out. */
  lemma WalkMissesPageFour()
    ensures IsOverflow(Image(), 5, 512, 1, 4)
    ensures 4 !in Walk(Image(), 5, 512, 1)
  {
    hide ChildPages, HeadPages, NextOverflow, Walk, IsOverflow;
    RootChildren();
    LeafHeads();
    SpillPage();
    OverlapHidesChain(Image(), 5, 512, 1, 2, 3, 4);
  }
}
