/**
 Both interior parsers (src/btree_walker.rs:195-240, src/tiered/btree_peek.rs:129-164) on pages laid
 out by section 1.6 of the file format: they return the children that were stored, and peek their keys.
 */
module InteriorPages {
  import opened Common
  import opened SqliteFormat
  import opened Integers
  import opened BtreePages
  import opened BtreePeek

  /** A table-interior page: after each child comes the varint of its signed key, in 64-bit two's complement. */
  ghost predicate IsTableInterior(buf: seq<Byte>, hdr: nat, rightmost: nat, cells: seq<InteriorCellContent>,
                                  keys: seq<int>) {
    && IsInteriorPage(buf, hdr, true, rightmost, cells) && |keys| == |cells|
    && (forall i :: 0 <= i < |keys| ==> IsI64(keys[i]))
    && forall i :: 0 <= i < |cells| ==> cells[i].rest == StoredKey(keys[i])
  }

  predicate IsI64(key: int) { -0x8000_0000_0000_0000 <= key < 0x8000_0000_0000_0000 }

  function StoredKey(key: int): seq<Byte>
    requires IsI64(key)
  {
    EncodeVarint(if key < 0 then key + 0x1_0000_0000_0000_0000 else key)
  }

  function Children(cells: seq<InteriorCellContent>): (r: seq<nat>)
    ensures |r| == |cells|
  {
    seq(|cells|, i requires 0 <= i < |cells| => cells[i].child)
  }

  /** A stored cell's child pointer, and where the rest of the cell is. */
  lemma ChildStored(buf: seq<Byte>, off: nat, cell: InteriorCellContent)
    requires cell.Valid() && StoredAt(buf, off, cell.Bytes())
    ensures off + 4 <= |buf| && U32(buf, off) == cell.child && StoredAt(buf, off + 4, cell.rest)
  {
    hide U32, PageNumber, StoredAt;
    StoredParts(buf, off, PageNumber(cell.child), cell.rest);
    PageNumberAt(buf, off, cell.child);
  }

  lemma {:induction false} ChildrenReadBack(buf: seq<Byte>, ptrs: nat, want: seq<nat>, n: nat)
    requires n <= |want| && ptrs + 2 * |want| <= |buf|
    requires forall i :: 0 <= i < |want| ==> ChildAt(buf, CellOffset(buf, ptrs, i)) == Some(want[i])
    ensures CellChildren(buf, ptrs, n) == want[..n]
  {
    if n > 0 {
      hide CellOffset, ChildAt;
      ChildrenReadBack(buf, ptrs, want, n - 1);
      OneMoreChild(buf, ptrs, n - 1);
      hide CellChildren;
      assert want[..n] == want[..n - 1] + [want[n - 1]];
    }
  }

  lemma RoomIsEnough(buf: seq<Byte>, hdr: nat, isTable: bool, rightmost: nat, cells: seq<InteriorCellContent>)
    requires IsInteriorPage(buf, hdr, isTable, rightmost, cells)
    ensures Min(CellCount(buf, hdr), PointerRoom(buf, hdr + 12)) == |cells| && U32(buf, hdr + 8) == rightmost
  {
    hide U32, PageNumber;
    PageNumberAt(buf, hdr + 8, rightmost);
    PlacesAgree(buf, hdr, hdr + 12, |cells|);
  }

  /**
   On every laid-out interior page, table or index, the walker returns the rightmost child and then
   the cells' children in order.
   */
  lemma InteriorChildrenRoundTrip(buf: seq<Byte>, hdr: nat, isTable: bool, rightmost: nat,
                                  cells: seq<InteriorCellContent>)
    requires IsInteriorPage(buf, hdr, isTable, rightmost, cells)
    ensures InteriorChildren(buf, hdr) == [rightmost] + Children(cells)
  {
    RoomIsEnough(buf, hdr, isTable, rightmost, cells);
    PlacesAgree(buf, hdr, hdr + 12, |cells|);
    hide CellChildren, U32, StoredAt, CellCount, CellOffset, CellPlace;
    var want := Children(cells);
    forall i | 0 <= i < |want|
      ensures ChildAt(buf, CellOffset(buf, hdr + 12, i)) == Some(want[i])
    {
      ChildStored(buf, CellPlace(buf, hdr + 12, i), cells[i]);
    }
    ChildrenReadBack(buf, hdr + 12, want, |cells|);
    assert want[..|cells|] == want;
  }

  function PeekCells(cells: seq<InteriorCellContent>, keys: seq<int>): (r: seq<TableInteriorCell>)
    requires |keys| == |cells|
    ensures |r| == |cells|
  {
    seq(|cells|, i requires 0 <= i < |cells| => TableInteriorCell(cells[i].child, keys[i]))
  }

  lemma CellReadBack(buf: seq<Byte>, off: nat, cell: InteriorCellContent, key: int)
    requires cell.Valid() && IsI64(key) && cell.rest == StoredKey(key) && StoredAt(buf, off, cell.Bytes())
    ensures InteriorCell(buf)(off) == Some(TableInteriorCell(cell.child, key))
  {
    hide EncodeVarint, PeekVarint, StoredAt, U32;
    ChildStored(buf, off, cell);
    PeekInvertsEncoding(buf, off + 4, if key < 0 then key + 0x1_0000_0000_0000_0000 else key);
  }

  lemma PrefixGrows(want: seq<TableInteriorCell>, n: nat)
    requires 0 < n <= |want|
    ensures want[..n - 1] + [want[n - 1]] == want[..n]
  {
  }

  lemma {:induction false} CellsReadBack(page: seq<Byte>, ptrs: nat, cell: CellParser, want: seq<TableInteriorCell>,
                                         n: nat)
    requires n <= |want| && ptrs + 2 * |want| <= |page|
    requires forall i :: 0 <= i < |want| ==> cell(CellOffset(page, ptrs, i)) == Some(want[i])
    ensures InteriorCells(page, ptrs, n, cell) == want[..n]
  {
    if n == 0 {
      NoInterior(page, ptrs, cell);
    } else {
      hide InteriorCells, CellOffset;
      CellsReadBack(page, ptrs, cell, want, n - 1);
      OneMoreInterior(page, ptrs, n - 1, cell);
      PrefixGrows(want, n);
    }
  }

  lemma AllReadBack(page: seq<Byte>, hdr: nat, rightmost: nat, cells: seq<InteriorCellContent>, keys: seq<int>)
    requires IsTableInterior(page, hdr, rightmost, cells, keys)
    ensures InteriorCells(page, hdr + 12, |cells|, InteriorCell(page)) == PeekCells(cells, keys)
  {
    PlacesAgree(page, hdr, hdr + 12, |cells|);
    hide EncodeVarint, StoredAt, InteriorCell, InteriorCells, CellOffset, CellPlace;
    var want := PeekCells(cells, keys);
    forall i | 0 <= i < |want|
      ensures InteriorCell(page)(CellOffset(page, hdr + 12, i)) == Some(want[i])
    {
      CellReadBack(page, CellPlace(page, hdr + 12, i), cells[i], keys[i]);
    }
    hide PeekCells, IsTableInterior, IsInteriorPage;
    CellsReadBack(page, hdr + 12, InteriorCell(page), want, |cells|);
    assert want[..|cells|] == want;
  }

  /**
   On every laid-out table-interior page peek returns all children with their signed keys, in order,
   and nothing malformed.
   */
  lemma TableInteriorRoundTrip(page: seq<Byte>, page1: bool, rightmost: nat, cells: seq<InteriorCellContent>,
                               keys: seq<int>)
    requires IsTableInterior(page, if page1 then 100 else 0, rightmost, cells, keys)
    ensures ParseInterior(page, page1) == TableInteriorCells(Some(rightmost), PeekCells(cells, keys), 0, false)
  {
    var hdr := PeekHeader(page1);
    RoomIsEnough(page, hdr, true, rightmost, cells);
    AllReadBack(page, hdr, rightmost, cells, keys);
    hide InteriorCells, InteriorCell, U32, StoredAt, EncodeVarint, CellCount, PeekCells;
  }
}
