/**
 An index laid out by the file format, on 512-byte pages, of which the walk (src/btree_walker.rs:106-191)
 misses a page: the key on its interior root spills.
 */
module SpilledKeyImage {
  import opened Common
  import opened SqliteFormat
  import opened Graphs
  import opened BtreeWalker
  import opened StoredTrees

  /** A key of 103 bytes, one more than fits: it goes on on page 5. */
  const KEY := LeafCellContent(Zeros(103), 0, 5)

  const CELL := InteriorCellContent(4, [103] + Zeros(39) + [0, 0, 0, 5])

  /** An index-interior page with rightmost child 3 and one cell, whose child is 4. */
  const ROOT: seq<Byte> :=
    [0x02, 0, 0, 0, 1, 0, 0, 0, 0, 0, 0, 3, 0, 14] + ([0, 0, 0, 4] + ([103] + Zeros(39) + [0, 0, 0, 5])) + Zeros(450)

  /** An index leaf without cells. */
  const LEAF: seq<Byte> := [0x0A] + Zeros(511)

  const SPILL: seq<Byte> := Zeros(512)

  function Image(): Reader {
    (page: nat) =>
      if page == 1 then Some(ROOT) else if page == 2 || page == 3 then Some(LEAF)
      else if page == 4 then Some(SPILL) else None
  }

  const INDEX: Database :=
    map[1 := IndexInterior(3, [CELL], [KEY]), 2 := Leaf(false, []), 3 := Leaf(false, []), 4 := Overflow(0)]

  lemma KeySpills()
    ensures KEY.Valid() && KEY.Spills(512, false) && KEY.Bytes(512, false) == [103] + Zeros(39) + [0, 0, 0, 5]
  {
    assert Groups(0, 0) == [] && EncodeVarint(103) == [] + [103] == [103];
    KnownLimits();
    assert KEY.Local(512, false) == 39 && Zeros(103)[..39] == Zeros(39);
    assert PageNumber(5) == [0, 0, 0, 5];
  }

  lemma RootIsStored()
    ensures IsPage(ROOT, 1, 512, INDEX[1])
  {
    KeySpills();
    hide LeafCellContent.Bytes, LeafCellContent.Spills, MaxLocal;
    assert PageNumber(4) == [0, 0, 0, 4] && PageNumber(3) == [0, 0, 0, 3];
    assert ROOT[8..12] == [0, 0, 0, 3];
    assert CELL.Bytes() == [0, 0, 0, 4] + ([103] + Zeros(39) + [0, 0, 0, 5]);
    assert ROOT[14..14 + |CELL.Bytes()|] == CELL.Bytes();
  }

  lemma LeafIsStored(page: nat)
    requires page > 0
    ensures IsPage(LEAF, page, 512, Leaf(false, []))
  {
  }

  lemma SpillIsStored()
    ensures IsPage(SPILL, 4, 512, Overflow(0))
  {
    assert SPILL[0..4] == PageNumber(0);
  }

  lemma ImageIsStored()
    ensures IsStored(Image(), 5, 512, INDEX)
  {
    hide IsPage;
    RootIsStored();
    LeafIsStored(2);
    LeafIsStored(3);
    SpillIsStored();
  }

  lemma EdgesAre()
    ensures ChildrenAt(INDEX, 1) == {2, 3} && ChildrenAt(INDEX, 2) == {} && ChildrenAt(INDEX, 3) == {}
    ensures NextAt(INDEX, 4) == {}
    ensures RowHeads(INDEX, 512, 1) == {} && RowHeads(INDEX, 512, 2) == {} && RowHeads(INDEX, 512, 3) == {}
    ensures KeyHeads(INDEX, 512, 1) == {4} && KeyHeads(INDEX, 512, 2) == {} && KeyHeads(INDEX, 512, 3) == {}
  {
    KeySpills();
    hide LeafCellContent.Spills, LeafCellContent.Bytes;
    var pointers := Pointers(INDEX[1]);
    assert pointers == [3, 4] && pointers[0] in pointers && pointers[1] in pointers;
    assert [KEY][0] in [KEY] && KEY.firstOverflow - 1 == 4;
    assert Heads([KEY], 512, false) == {4};
  }

  lemma NodesAre(p: nat)
    requires IsTreeNode(INDEX, 1, p)
    ensures p in {1, 2, 3}
  {
    EdgesAre();
    hide ChildrenAt, Reach;
    assert forall x <- {1, 2, 3} :: Edges(INDEX)(x) <= {1, 2, 3};
    ReachStaysInside(Edges(INDEX), 1, p, {1, 2, 3});
  }

  lemma ChainEnds(p: nat)
    requires Reach(Links(INDEX), 4, p)
    ensures p == 4
  {
    EdgesAre();
    hide NextAt, Reach;
    assert forall x <- {4} :: Links(INDEX)(x) <= {4};
    ReachStaysInside(Links(INDEX), 4, p, {4});
  }

  lemma ChainsAre(p: nat)
    ensures !IsRowPage(INDEX, 512, 1, p)
    ensures IsKeyPage(INDEX, 512, 1, p) ==> p == 4
  {
    hide RowHeads, KeyHeads, Reach, IsTreeNode;
    EdgesAre();
    forall page: nat | IsTreeNode(INDEX, 1, page)
      ensures RowHeads(INDEX, 512, page) == {} && KeyHeads(INDEX, 512, page) <= {4}
    {
      NodesAre(page);
    }
    if IsKeyPage(INDEX, 512, 1, p) {
      ChainEnds(p);
    }
  }

  lemma IndexIsTree()
    ensures IsTree(INDEX, 512, 1) && ChainsApart(INDEX, 512, 1)
  {
    hide IsTreeNode, IsRowPage, IsKeyPage;
    forall p: nat
      ensures IsTreeNode(INDEX, 1, p) ==> p in {1, 2, 3}
      ensures !IsRowPage(INDEX, 512, 1, p) && (IsKeyPage(INDEX, 512, 1, p) ==> p == 4)
    {
      if IsTreeNode(INDEX, 1, p) {
        NodesAre(p);
      }
      ChainsAre(p);
    }
  }

  /** Page 4 holds the end of the root's key; the walk returns pages 1 to 3 without it. */
  lemma WalkMissesTheKey()
    ensures IsStored(Image(), 5, 512, INDEX) && IsTree(INDEX, 512, 1) && ChainsApart(INDEX, 512, 1)
    ensures IsKeyPage(INDEX, 512, 1, 4) && Walk(Image(), 5, 512, 1) == [1, 2, 3]
  {
    ImageIsStored();
    IndexIsTree();
    EdgesAre();
    hide IsStored, IsTree, ChainsApart, Walk, ChildrenAt, KeyHeads, RowHeads, Image;
    ReachSelf(Links(INDEX), 4);
    ReachSelf(Edges(INDEX), 1);
    ReachStep(Edges(INDEX), 1, 1, 2);
    ReachStep(Edges(INDEX), 1, 1, 3);
    assert OnChain(INDEX, KeyHeads(INDEX, 512, 1), 4);
    assert IsTreeNode(INDEX, 1, 1) && IsTreeNode(INDEX, 1, 2) && IsTreeNode(INDEX, 1, 3);
    hide Reach, Links, Edges, IsTreeNode, IsRowPage;
    StoredTreeIsWalked(Image(), 5, 512, INDEX, 1);
    forall p: nat
      ensures p in Walk(Image(), 5, 512, 1) <==> p in [1, 2, 3]
    {
      ChainsAre(p);
      if IsTreeNode(INDEX, 1, p) {
        NodesAre(p);
      }
    }
    SameMembersSameList(Walk(Image(), 5, 512, 1), [1, 2, 3]);
  }
}
