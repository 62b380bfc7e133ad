/**
 What the walker reads off one page (src/btree_walker.rs:195-325): the child pointers of an
 interior page and the first overflow page of each leaf cell that spills.
 */
module BtreePages {
  import opened Common
  import opened SqliteFormat
  import opened Integers

  const INTERIOR_INDEX: Byte := 0x02
  const INTERIOR_TABLE: Byte := 0x05
  const LEAF_INDEX: Byte := 0x0A
  const LEAF_TABLE: Byte := 0x0D

  /** Page 0 carries the 100-byte database header. */
  function HeaderOffset(page: nat): nat { if page == 0 then 100 else 0 }

  function Min(a: nat, b: nat): nat { if a <= b then a else b }

  /** How many two-byte cell pointers fit between `ptrs` and the end of the page. */
  function PointerRoom(buf: seq<Byte>, ptrs: nat): nat {
    if |buf| < ptrs then 0 else (|buf| - ptrs) / 2
  }

  // ---------- interior pages ----------

  function CellOffset(buf: seq<Byte>, ptrs: nat, i: nat): nat
    requires ptrs + 2 * i + 2 <= |buf|
  {
    U16(buf, ptrs + 2 * i)
  }

  lemma PlacesAgree(buf: seq<Byte>, hdr: nat, ptrs: nat, n: nat)
    requires HasCells(buf, hdr, ptrs, n)
    ensures CellCount(buf, hdr) == n && Min(n, PointerRoom(buf, ptrs)) == n
    ensures forall i :: 0 <= i < n ==> CellOffset(buf, ptrs, i) == CellPlace(buf, ptrs, i)
  {
  }

  /** Left-child pointers of the first `n` cells; a cell that leaves the page is skipped. */
  function CellChildren(buf: seq<Byte>, ptrs: nat, n: nat): (r: seq<nat>)
    requires ptrs + 2 * n <= |buf|
    ensures forall k :: 0 <= k < |r| ==> r[k] < 0x1_0000_0000
  {
    if n == 0 then []
    else
      var off := CellOffset(buf, ptrs, n - 1);
      CellChildren(buf, ptrs, n - 1) + if off + 4 <= |buf| then [U32(buf, off)] else []
  }

  function CellCount(buf: seq<Byte>, hdr: nat): nat
    requires hdr + 8 <= |buf|
  {
    U16(buf, hdr + 3)
  }

  function InteriorChildren(buf: seq<Byte>, hdr: nat): (r: seq<nat>)
    ensures forall k :: 0 <= k < |r| ==> r[k] < 0x1_0000_0000
  {
    if |buf| < hdr + 12 then []
    else [U32(buf, hdr + 8)]
         + CellChildren(buf, hdr + 12, Min(CellCount(buf, hdr), PointerRoom(buf, hdr + 12)))
  }

  /** src/btree_walker.rs:195-240. The bounds test inside the loop never fires after the cap. */
  method ExtractInteriorChildren(buf: seq<Byte>, hdr: nat) returns (children: seq<nat>)
    ensures children == InteriorChildren(buf, hdr)
  {
    children := [];
    if |buf| < hdr + 12 {
      return;
    }
    var cellCount := CellCount(buf, hdr);
    var maxCells := (|buf| - (hdr + 12)) / 2;
    cellCount := Min(cellCount, maxCells);
    children := children + [U32(buf, hdr + 8)];
    for i := 0 to cellCount
      invariant children == [U32(buf, hdr + 8)] + CellChildren(buf, hdr + 12, i)
    {
      var off := U16(buf, hdr + 12 + i * 2);
      if off + 4 <= |buf| {
        children := children + [U32(buf, off)];
      }
    }
  }

  // ---------- leaf pages ----------

  /** src/btree_walker.rs:262-267; the page size stands for the usable size. */
  function LocalLimit(pageSize: nat, isTable: bool): int {
    if isTable then pageSize - 35 else (pageSize - 12) * 64 / 255 - 23
  }

  /** src/btree_walker.rs:297-307 */
  function LocalPart(payload: nat, pageSize: nat, isTable: bool): (n: nat)
    requires pageSize >= 512 && payload > LocalLimit(pageSize, isTable)
  {
    var least := (pageSize - 12) * 32 / 255 - 23;
    var surplus := least + (payload - least) % (pageSize - 4);
    if surplus <= LocalLimit(pageSize, isTable) then surplus else least
  }

  /** First overflow page (1-based) of the cell at `off`, if the cell spills to a readable, non-zero pointer. */
  function CellOverflow(buf: seq<Byte>, off: nat, usable: nat, isTable: bool): (r: Option<nat>)
    requires off <= |buf| && usable >= 512
    ensures r.Some? ==> 0 < r.value < 0x1_0000_0000
  {
    var (payload, n) := WalkerVarint(buf[off..]);
    var pos := if isTable then off + n + WalkerVarint(buf[off + n..]).1 else off + n;
    if payload <= LocalLimit(usable, isTable) then None
    else
      var ptr := pos + LocalPart(payload, usable, isTable);
      if ptr + 4 <= |buf| && U32(buf, ptr) != 0 then Some(U32(buf, ptr)) else None
  }

  /** What each in-page cell offset contributes; a cell that starts past the page is skipped. */
  function CellReader(buf: seq<Byte>, usable: nat, isTable: bool): nat -> Option<nat>
    requires usable >= 512
  {
    (off: nat) => if off < |buf| then CellOverflow(buf, off, usable, isTable) else None
  }

  function CellOverflows(buf: seq<Byte>, ptrs: nat, n: nat, cell: nat -> Option<nat>): (r: seq<nat>)
    requires ptrs + 2 * n <= |buf|
  {
    if n == 0 then []
    else
      var overflow := cell(CellOffset(buf, ptrs, n - 1));
      CellOverflows(buf, ptrs, n - 1, cell) + if overflow.Some? then [overflow.value] else []
  }

  function LeafOverflows(buf: seq<Byte>, hdr: nat, usable: nat, isTable: bool): seq<nat>
    requires usable >= 512
  {
    if |buf| < hdr + 8 then []
    else CellOverflows(buf, hdr + 8, Min(CellCount(buf, hdr), PointerRoom(buf, hdr + 8)),
                       CellReader(buf, usable, isTable))
  }

  lemma OneMoreCell(buf: seq<Byte>, ptrs: nat, n: nat, cell: nat -> Option<nat>)
    requires ptrs + 2 * n + 2 <= |buf|
    ensures CellOverflows(buf, ptrs, n + 1, cell) ==
            var overflow := cell(CellOffset(buf, ptrs, n));
            if overflow.Some? then CellOverflows(buf, ptrs, n, cell) + [overflow.value]
            else CellOverflows(buf, ptrs, n, cell)
  {
  }

  lemma {:induction false} OverflowsInRange(buf: seq<Byte>, ptrs: nat, n: nat, cell: nat -> Option<nat>, page: nat)
    requires ptrs + 2 * n <= |buf|
    requires forall off: nat :: cell(off).Some? ==> 0 < cell(off).value < 0x1_0000_0000
    requires page in CellOverflows(buf, ptrs, n, cell)
    ensures 0 < page < 0x1_0000_0000
  {
    if n > 0 && page in CellOverflows(buf, ptrs, n - 1, cell) {
      OverflowsInRange(buf, ptrs, n - 1, cell, page);
    }
  }

  /** The body of the cell loop, src/btree_walker.rs:281-321. */
  method FindCellOverflow(buf: seq<Byte>, cellOff: nat, pageSize: nat, isTable: bool) returns (r: Option<nat>)
    requires cellOff <= |buf| && pageSize >= 512
    ensures r == CellOverflow(buf, cellOff, pageSize, isTable)
  {
    hide WalkerVarint;
    var maxLocal := if isTable then pageSize - 35 else (pageSize - 12) * 64 / 255 - 23;
    var payload, used := ReadVarintWalker(buf[cellOff..]);
    var pos := cellOff + used;
    if isTable {
      var _, rowidBytes := ReadVarintWalker(buf[pos..]);
      pos := pos + rowidBytes;
    }
    if payload > maxLocal {
      var minLocal := (pageSize - 12) * 32 / 255 - 23;
      var surplus := minLocal + (payload - minLocal) % (pageSize - 4);
      var localSize := if surplus <= maxLocal then surplus else minLocal;
      var ptr := pos + localSize;
      if ptr + 4 <= |buf| {
        var page := U32(buf, ptr);
        if page != 0 {
          return Some(page);
        }
      }
    }
    return None;
  }

  /** src/btree_walker.rs:244-325 */
  method ExtractLeafOverflowPages(buf: seq<Byte>, hdr: nat, pageSize: nat, typeByte: Byte)
    returns (overflow: seq<nat>)
    requires pageSize >= 512
    ensures overflow == LeafOverflows(buf, hdr, pageSize, typeByte == LEAF_TABLE)
  {
    hide CellOverflow;
    overflow := [];
    if |buf| < hdr + 8 {
      return;
    }
    var cellCount := CellCount(buf, hdr);
    var isTable := typeByte == LEAF_TABLE;
    ghost var cell := CellReader(buf, pageSize, isTable);
    var i := 0;
    while i < cellCount
      invariant 0 <= i <= cellCount && i <= PointerRoom(buf, hdr + 8)
      invariant overflow == CellOverflows(buf, hdr + 8, i, cell)
    {
      var ptrOff := hdr + 8 + i * 2;
      if ptrOff + 2 > |buf| {
        break;
      }
      var cellOff := U16(buf, ptrOff);
      var page := None;
      if cellOff < |buf| {
        page := FindCellOverflow(buf, cellOff, pageSize, isTable);
      }
      assert page == cell(cellOff) && cellOff == CellOffset(buf, hdr + 8, i);
      OneMoreCell(buf, hdr + 8, i, cell);
      if page.Some? {
        overflow := overflow + [page.value];
      }
      i := i + 1;
    }
    assert i == Min(cellCount, PointerRoom(buf, hdr + 8));
  }
}
