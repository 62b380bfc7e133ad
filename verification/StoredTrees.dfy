/**
 The walk (src/btree_walker.rs:46-191) on databases laid out by sections 1.6 and 1.7 of the file
 format. Pages are given by what is stored on them, bytes and all; what a tree consists of is read
 off the stored pointers and not off the walker's readers.
 */
module StoredTrees {
  import opened Common
  import opened SqliteFormat
  import opened Graphs
  import opened BtreePages
  import opened BtreeWalker
  import opened WalkTheorems
  import opened DatabaseWalk
  import opened LeafPages
  import opened InteriorPages

  /** A page and what it holds. Page numbers in it are 1-based; 0 ends an overflow chain. */
  datatype StoredPage =
    | TableInterior(rightmost: nat, cells: seq<InteriorCellContent>)
    | IndexInterior(rightmost: nat, cells: seq<InteriorCellContent>, keys: seq<LeafCellContent>)
    | Leaf(isTable: bool, rows: seq<LeafCellContent>)
    | Overflow(next: nat)

  /** Stored pages by 0-based number. */
  type Database = map<nat, StoredPage>

  /** The bytes of a stored page; the first page begins with the database header. */
  ghost predicate IsPage(buf: seq<Byte>, page: nat, pageSize: nat, stored: StoredPage)
    requires pageSize >= 512
  {
    var hdr := if page == 0 then 100 else 0;
    && |buf| == pageSize
    && match stored
       case TableInterior(rightmost, cells) => IsInteriorPage(buf, hdr, true, rightmost, cells)
       case IndexInterior(rightmost, cells, keys) =>
         IsInteriorPage(buf, hdr, false, rightmost, cells) && AreKeys(cells, keys, pageSize)
       case Leaf(isTable, rows) => IsLeafPage(buf, hdr, pageSize, isTable, rows)
       case Overflow(next) => next < 0x1_0000_0000 && StoredAt(buf, 0, PageNumber(next))
  }

  /** In an index, a key follows the child pointer; it spills like a leaf cell. */
  ghost predicate AreKeys(cells: seq<InteriorCellContent>, keys: seq<LeafCellContent>, pageSize: nat)
    requires pageSize >= 512
  {
    && |keys| == |cells|
    && (forall i :: 0 <= i < |keys| ==> keys[i].Valid())
    && forall i :: 0 <= i < |keys| ==> cells[i].rest == keys[i].Bytes(pageSize, false)
  }

  ghost predicate IsStored(read: Reader, pageCount: nat, pageSize: nat, db: Database)
    requires pageSize >= 512
  {
    forall p <- db.Keys :: p < pageCount && read(p).Some? && IsPage(read(p).value, p, pageSize, db[p])
  }

  // ---------- the tree that is stored ----------

  function Pointers(stored: StoredPage): seq<nat> {
    if stored.TableInterior? || stored.IndexInterior? then [stored.rightmost] + Children(stored.cells) else []
  }

  function ChildrenAt(db: Database, p: nat): set<nat> {
    if p in db then set v <- Pointers(db[p]) | v > 0 :: v - 1 else {}
  }

  /** First overflow pages of the cells that spill. */
  function Heads(cells: seq<LeafCellContent>, pageSize: nat, isTable: bool): set<nat>
    requires pageSize >= 512
  {
    set c <- cells | c.Spills(pageSize, isTable) && c.firstOverflow > 0 :: c.firstOverflow - 1
  }

  function RowHeads(db: Database, pageSize: nat, p: nat): set<nat>
    requires pageSize >= 512
  {
    if p in db && db[p].Leaf? then Heads(db[p].rows, pageSize, db[p].isTable) else {}
  }

  function KeyHeads(db: Database, pageSize: nat, p: nat): set<nat>
    requires pageSize >= 512
  {
    if p in db && db[p].IndexInterior? then Heads(db[p].keys, pageSize, false) else {}
  }

  function NextAt(db: Database, p: nat): set<nat> {
    if p in db && db[p].Overflow? && db[p].next > 0 then {db[p].next - 1} else {}
  }

  ghost function Edges(db: Database): Graph { p => ChildrenAt(db, p) }

  ghost function Links(db: Database): Graph { p => NextAt(db, p) }

  ghost predicate IsTreeNode(db: Database, root: nat, p: nat) { Reach(Edges(db), root, p) }

  ghost predicate OnChain(db: Database, heads: set<nat>, p: nat) {
    exists h <- heads :: Reach(Links(db), h, p)
  }

  /** `p` holds a part of a row that spills from a leaf of the tree. */
  ghost predicate IsRowPage(db: Database, pageSize: nat, root: nat, p: nat)
    requires pageSize >= 512
  {
    exists leaf: nat :: IsTreeNode(db, root, leaf) && OnChain(db, RowHeads(db, pageSize, leaf), p)
  }

  /** `p` holds a part of a key that spills from an interior page of the tree. */
  ghost predicate IsKeyPage(db: Database, pageSize: nat, root: nat, p: nat)
    requires pageSize >= 512
  {
    exists page: nat :: IsTreeNode(db, root, page) && OnChain(db, KeyHeads(db, pageSize, page), p)
  }

  /** Every pointer of the tree leads to a stored page of its kind. */
  ghost predicate IsTree(db: Database, pageSize: nat, root: nat)
    requires pageSize >= 512
  {
    && (forall p: nat :: IsTreeNode(db, root, p) ==> p in db && !db[p].Overflow?)
    && (forall p: nat :: IsRowPage(db, pageSize, root, p) || IsKeyPage(db, pageSize, root, p) ==>
          p in db && db[p].Overflow?)
  }

  // ---------- one page ----------

  lemma {:induction false} FirstOverflowsAre(cells: seq<LeafCellContent>, pageSize: nat, isTable: bool, v: nat)
    requires pageSize >= 512
    ensures v in FirstOverflows(cells, pageSize, isTable) <==>
            exists c <- cells :: c.Spills(pageSize, isTable) && c.firstOverflow == v
  {
    hide LeafCellContent.Spills;
    if cells != [] {
      var init, last := cells[..|cells| - 1], cells[|cells| - 1];
      FirstOverflowsAre(init, pageSize, isTable, v);
      assert cells == init + [last];
    }
  }

  lemma InteriorIsRead(read: Reader, pageCount: nat, pageSize: nat, db: Database, p: nat)
    requires pageSize >= 512 && IsStored(read, pageCount, pageSize, db) && p in db
    requires db[p].TableInterior? || db[p].IndexInterior?
    ensures NodeGraph(read)(p) == ChildrenAt(db, p) && HeadPages(read, pageSize, p) == []
    ensures HasType(read, p, if db[p].TableInterior? then 0x05 else 0x02)
    ensures db[p].TableInterior? ==> TableGraph(read)(p) == ChildrenAt(db, p)
  {
    hide IsInteriorPage, InteriorChildren, ZeroBased, HasCells;
    var buf, hdr, stored := read(p).value, HeaderOffset(p), db[p];
    assert IsPage(buf, p, pageSize, stored);
    InteriorType(buf, hdr, stored.TableInterior?, stored.rightmost, stored.cells);
    InteriorChildrenRoundTrip(buf, hdr, stored.TableInterior?, stored.rightmost, stored.cells);
    forall c: nat
      ensures c in ZeroBased(InteriorChildren(buf, hdr)) <==> c in ChildrenAt(db, p)
    {
      ZeroBasedMembers(InteriorChildren(buf, hdr), c);
    }
  }

  lemma InteriorType(buf: seq<Byte>, hdr: nat, isTable: bool, rightmost: nat, cells: seq<InteriorCellContent>)
    requires IsInteriorPage(buf, hdr, isTable, rightmost, cells)
    ensures hdr + 12 <= |buf| && buf[hdr] == if isTable then 0x05 else 0x02
  {
  }

  lemma LeafIsRead(read: Reader, pageCount: nat, pageSize: nat, db: Database, p: nat)
    requires pageSize >= 512 && IsStored(read, pageCount, pageSize, db) && p in db && db[p].Leaf?
    ensures NodeGraph(read)(p) == ChildrenAt(db, p) == {}
    ensures (set h <- HeadPages(read, pageSize, p)) == RowHeads(db, pageSize, p)
    ensures HasType(read, p, if db[p].isTable then 0x0D else 0x0A)
  {
    hide IsLeafPage, LeafOverflows, FirstOverflows, ZeroBased, LeafCellContent.Spills;
    var buf, hdr, stored := read(p).value, HeaderOffset(p), db[p];
    assert IsPage(buf, p, pageSize, stored);
    LeafType(buf, hdr, pageSize, stored.isTable, stored.rows);
    LeafOverflowsRoundTrip(buf, hdr, pageSize, stored.isTable, stored.rows);
    LeafOverflowsInRange(buf, p, pageSize);
    forall h: nat
      ensures h in HeadPages(read, pageSize, p) <==> h in RowHeads(db, pageSize, p)
    {
      ZeroBasedMembers(FirstOverflows(stored.rows, pageSize, stored.isTable), h);
      FirstOverflowsAre(stored.rows, pageSize, stored.isTable, h + 1);
    }
  }

  lemma LeafType(buf: seq<Byte>, hdr: nat, usable: nat, isTable: bool, rows: seq<LeafCellContent>)
    requires usable >= 512 && IsLeafPage(buf, hdr, usable, isTable, rows)
    ensures hdr + 8 <= |buf| && buf[hdr] == if isTable then 0x0D else 0x0A
  {
  }

  lemma OverflowIsRead(read: Reader, pageCount: nat, pageSize: nat, db: Database, p: nat)
    requires pageSize >= 512 && IsStored(read, pageCount, pageSize, db) && p in db && db[p].Overflow?
    requires NextAt(db, p) <= db.Keys
    ensures ChainGraph(read, pageCount)(p) == NextAt(db, p)
  {
    hide PageNumber, U32;
    assert IsPage(read(p).value, p, pageSize, db[p]);
    PageNumberAt(read(p).value, 0, db[p].next);
  }

  // ---------- the whole tree ----------

  lemma NodeIsRead(read: Reader, pageCount: nat, pageSize: nat, db: Database, p: nat)
    requires pageSize >= 512 && IsStored(read, pageCount, pageSize, db) && p in db && !db[p].Overflow?
    ensures NodeGraph(read)(p) == Edges(db)(p)
    ensures (set h <- HeadPages(read, pageSize, p)) == RowHeads(db, pageSize, p)
  {
    hide IsStored, NodeGraph, HeadPages, ChildrenAt;
    if db[p].Leaf? {
      LeafIsRead(read, pageCount, pageSize, db, p);
    } else {
      InteriorIsRead(read, pageCount, pageSize, db, p);
    }
  }

  /** The nodes the walker reaches are the nodes of the stored tree. */
  lemma NodesAre(read: Reader, pageCount: nat, pageSize: nat, db: Database, root: nat, p: nat)
    requires pageSize >= 512 && IsStored(read, pageCount, pageSize, db) && IsTree(db, pageSize, root)
    ensures IsNode(read, root, p) <==> IsTreeNode(db, root, p)
  {
    hide IsStored, NodeGraph, Edges, Reach, HeadPages;
    forall x: nat | Reach(Edges(db), root, x)
      ensures NodeGraph(read)(x) == Edges(db)(x)
    {
      assert IsTreeNode(db, root, x);
      NodeIsRead(read, pageCount, pageSize, db, x);
    }
    SameReach(NodeGraph(read), Edges(db), root, p);
  }

  /** What follows a row page is a row page. */
  lemma LinksAre(read: Reader, pageCount: nat, pageSize: nat, db: Database, root: nat, leaf: nat, h: nat, p: nat)
    requires pageSize >= 512 && IsStored(read, pageCount, pageSize, db) && IsTree(db, pageSize, root)
    requires IsTreeNode(db, root, leaf) && h in RowHeads(db, pageSize, leaf)
    ensures IsOverflowPage(read, pageCount, h)
    ensures Reach(ChainGraph(read, pageCount), h, p) <==> Reach(Links(db), h, p)
  {
    hide RowHeads, ChainGraph, Reach, IsTreeNode, IsPage;
    forall x: nat | Reach(Links(db), h, x)
      ensures x in db && db[x].Overflow? && ChainGraph(read, pageCount)(x) == Links(db)(x)
    {
      assert OnChain(db, RowHeads(db, pageSize, leaf), x);
      assert IsRowPage(db, pageSize, root, x);
      forall y <- NextAt(db, x)
        ensures y in db
      {
        ReachStep(Links(db), h, x, y);
        assert OnChain(db, RowHeads(db, pageSize, leaf), y);
        assert IsRowPage(db, pageSize, root, y);
      }
      OverflowIsRead(read, pageCount, pageSize, db, x);
    }
    ReachSelf(Links(db), h);
    SameReach(ChainGraph(read, pageCount), Links(db), h, p);
  }

  lemma ChainsAre(read: Reader, pageCount: nat, pageSize: nat, db: Database, root: nat, leaf: nat, p: nat)
    requires pageSize >= 512 && IsStored(read, pageCount, pageSize, db) && IsTree(db, pageSize, root)
    requires IsTreeNode(db, root, leaf)
    ensures OnChainOf(read, pageCount, pageSize, leaf, p) <==> OnChain(db, RowHeads(db, pageSize, leaf), p)
  {
    hide RowHeads, ChainGraph, Links, Reach, HeadPages, IsStored, IsTreeNode, IsRowPage, IsKeyPage, NodeGraph, Edges;
    NodeIsRead(read, pageCount, pageSize, db, leaf);
    forall h <- RowHeads(db, pageSize, leaf)
      ensures h in HeadPages(read, pageSize, leaf) && IsOverflowPage(read, pageCount, h)
      ensures Reach(ChainGraph(read, pageCount), h, p) <==> Reach(Links(db), h, p)
    {
      LinksAre(read, pageCount, pageSize, db, root, leaf, h, p);
    }
    forall h <- HeadPages(read, pageSize, leaf)
      ensures h in RowHeads(db, pageSize, leaf)
    {
    }
  }

  lemma OverflowsAre(read: Reader, pageCount: nat, pageSize: nat, db: Database, root: nat, p: nat)
    requires pageSize >= 512 && IsStored(read, pageCount, pageSize, db) && IsTree(db, pageSize, root)
    ensures IsOverflow(read, pageCount, pageSize, root, p) <==> IsRowPage(db, pageSize, root, p)
  {
    hide IsStored, IsTree, OnChain, OnChainOf, IsTreeNode, IsNode, RowHeads;
    forall leaf: nat
      ensures IsNode(read, root, leaf) <==> IsTreeNode(db, root, leaf)
      ensures IsTreeNode(db, root, leaf) ==>
                (OnChainOf(read, pageCount, pageSize, leaf, p) <==> OnChain(db, RowHeads(db, pageSize, leaf), p))
    {
      NodesAre(read, pageCount, pageSize, db, root, leaf);
      if IsTreeNode(db, root, leaf) {
        ChainsAre(read, pageCount, pageSize, db, root, leaf, p);
      }
    }
  }

  /**
   In every database laid out by the format, the walk from the root of a stored tree returns, in
   ascending order, exactly the pages of the tree and of the chains of its spilling rows.
   */
  lemma StoredTreeIsWalked(read: Reader, pageCount: nat, pageSize: nat, db: Database, root: nat)
    requires pageSize >= 512 && IsStored(read, pageCount, pageSize, db) && IsTree(db, pageSize, root)
    ensures StrictlyAscending(Walk(read, pageCount, pageSize, root))
    ensures forall p: nat :: p in Walk(read, pageCount, pageSize, root) <==>
              IsTreeNode(db, root, p) || IsRowPage(db, pageSize, root, p)
  {
    hide IsTreeNode, IsNode, IsOverflow, IsRowPage, IsKeyPage, Walk, IsPage, StrictlyAscending;
    forall p: nat
      ensures IsNode(read, root, p) <==> IsTreeNode(db, root, p)
      ensures IsOverflow(read, pageCount, pageSize, root, p) <==> IsRowPage(db, pageSize, root, p)
    {
      NodesAre(read, pageCount, pageSize, db, root, p);
      OverflowsAre(read, pageCount, pageSize, db, root, p);
    }
    WalkIsSound(read, pageCount, pageSize, root);
    WalkIsExact(read, pageCount, pageSize, root);
  }

  // ---------- keys that spill ----------

  /** Chains of rows and of keys share no page. */
  ghost predicate ChainsApart(db: Database, pageSize: nat, root: nat)
    requires pageSize >= 512
  {
    forall p: nat :: !(IsRowPage(db, pageSize, root, p) && IsKeyPage(db, pageSize, root, p))
  }

  /** Every key on an interior page of the tree is short enough to stay there. */
  ghost predicate KeysAreLocal(db: Database, pageSize: nat, root: nat)
    requires pageSize >= 512
  {
    forall p: nat :: IsTreeNode(db, root, p) && p in db && db[p].IndexInterior? ==>
      forall i :: 0 <= i < |db[p].keys| ==> |db[p].keys[i].payload| <= MaxLocal(pageSize, false)
  }

  lemma KeyPagesIff(read: Reader, pageCount: nat, pageSize: nat, db: Database, root: nat)
    requires pageSize >= 512 && IsStored(read, pageCount, pageSize, db)
    ensures (forall p: nat :: !IsKeyPage(db, pageSize, root, p)) <==> KeysAreLocal(db, pageSize, root)
  {
    hide Reach, MaxLocal, IsTreeNode;
    if KeysAreLocal(db, pageSize, root) {
      forall page: nat, p: nat | IsTreeNode(db, root, page)
        ensures !OnChain(db, KeyHeads(db, pageSize, page), p)
      {
      }
    } else {
      var page: nat, i :| IsTreeNode(db, root, page) && page in db && db[page].IndexInterior?
        && 0 <= i < |db[page].keys| && |db[page].keys[i].payload| > MaxLocal(pageSize, false);
      var key := db[page].keys[i];
      assert IsPage(read(page).value, page, pageSize, db[page]);
      assert key in db[page].keys && key.Valid();
      var h := key.firstOverflow - 1;
      assert h in KeyHeads(db, pageSize, page);
      ReachSelf(Links(db), h);
      assert OnChain(db, KeyHeads(db, pageSize, page), h);
      assert IsKeyPage(db, pageSize, root, h);
    }
  }

  /**
   The walk does not follow the chains of keys on interior index pages: it returns all pages of a
   stored tree exactly when no such key spills.
   */
  lemma WalkIsCompleteIff(read: Reader, pageCount: nat, pageSize: nat, db: Database, root: nat)
    requires pageSize >= 512 && IsStored(read, pageCount, pageSize, db) && IsTree(db, pageSize, root)
    requires ChainsApart(db, pageSize, root)
    ensures (forall p: nat ::
               IsTreeNode(db, root, p) || IsRowPage(db, pageSize, root, p) || IsKeyPage(db, pageSize, root, p) ==>
               p in Walk(read, pageCount, pageSize, root))
            <==> KeysAreLocal(db, pageSize, root)
  {
    hide IsStored, IsTreeNode, IsRowPage, IsKeyPage, KeysAreLocal, Walk, StrictlyAscending;
    StoredTreeIsWalked(read, pageCount, pageSize, db, root);
    KeyPagesIff(read, pageCount, pageSize, db, root);
  }

  // ---------- the schema table and the whole database ----------

  ghost predicate IsTableTree(db: Database, root: nat) {
    forall p: nat :: IsTreeNode(db, root, p) ==> p in db && (db[p].TableInterior? || (db[p].Leaf? && db[p].isTable))
  }

  /** The leaf search finds exactly the leaves of a stored table. */
  lemma SchemaLeavesAre(read: Reader, pageCount: nat, pageSize: nat, db: Database, root: nat, p: nat)
    requires pageSize >= 512 && IsStored(read, pageCount, pageSize, db) && IsTableTree(db, root)
    ensures IsSchemaLeaf(read, root, p) <==> IsTreeNode(db, root, p) && db[p].Leaf?
  {
    hide IsStored, Reach, HeadPages, NodeGraph, ChildrenAt;
    forall x: nat | Reach(Edges(db), root, x)
      ensures TableGraph(read)(x) == Edges(db)(x)
      ensures HasType(read, x, 0x0D) <==> db[x].Leaf?
    {
      assert IsTreeNode(db, root, x);
      if db[x].Leaf? {
        LeafIsRead(read, pageCount, pageSize, db, x);
      } else {
        InteriorIsRead(read, pageCount, pageSize, db, x);
      }
    }
    SameReach(TableGraph(read), Edges(db), root, p);
  }

  /** The roots the schema names, and page 0. */
  ghost predicate IsRoot(entries: seq<MasterEntry>, root: nat) {
    root == 0 || NamesRoot(entries, root)
  }

  /** With every tree stored, a page is owned exactly when some tree has it as a node or in a row's chain. */
  lemma OwnedPagesAre(read: Reader, pageCount: nat, pageSize: nat, db: Database, entries: seq<MasterEntry>, p: nat)
    requires pageSize >= 512 && IsStored(read, pageCount, pageSize, db)
    requires forall root: nat :: IsRoot(entries, root) ==> IsTree(db, pageSize, root)
    ensures Owned(Trees(WalkerOf(read, pageCount, pageSize), entries), p) <==>
            exists root: nat :: IsRoot(entries, root) &&
              (IsTreeNode(db, root, p) || IsRowPage(db, pageSize, root, p))
  {
    hide Trees, IsStored, IsTree, IsTreeNode, IsRowPage, Walk, WalkerOf, NamesRoot, StrictlyAscending, DescribedBy;
    var walk := WalkerOf(read, pageCount, pageSize);
    forall root: nat
      ensures root in Trees(walk, entries) <==> IsRoot(entries, root)
      ensures root in Trees(walk, entries) ==>
                (p in Trees(walk, entries)[root].pages <==>
                 IsTreeNode(db, root, p) || IsRowPage(db, pageSize, root, p))
    {
      TreesAre(walk, entries, root);
      WalkerIs(read, pageCount, pageSize, root);
      if IsRoot(entries, root) {
        StoredTreeIsWalked(read, pageCount, pageSize, db, root);
      }
    }
  }
}
