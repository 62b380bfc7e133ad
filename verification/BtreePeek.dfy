/**
 The lookahead parsers of src/tiered/btree_peek.rs: table-interior cells and index-leaf rowids.
 They take any bytes; a malformed cell is counted and skipped.
 */
module BtreePeek {
  import opened Common
  import opened SqliteFormat
  import opened Integers
  import opened BtreePages

  /** A checked `usize` addition. */
  function CheckedAdd(a: nat, b: nat): Option<nat> {
    if a + b < TWO_64 then Some(a + b) else None
  }

  function AsI64(v: nat): int { if v < TWO_63 then v else v - TWO_64 }

  function PeekHeader(page1: bool): nat { if page1 then 100 else 0 }

  // ---------- table interior pages ----------

  datatype TableInteriorCell = TableInteriorCell(childPage: nat, rowidKey: int)

  datatype TableInteriorCells = TableInteriorCells(rightmostChildPage: Option<nat>, cells: seq<TableInteriorCell>,
                                                   malformedCells: nat, stoppedEarly: bool)

  /** What the cell at an offset yields; none if it is malformed. */
  type CellParser = nat -> Option<TableInteriorCell>

  function InteriorCell(page: seq<Byte>): CellParser {
    (off: nat) =>
      if off + 4 > |page| then None
      else match PeekVarint(page, off + 4)
        case None => None
        case Some((key, _)) => Some(TableInteriorCell(U32(page, off), AsI64(key)))
  }

  /** The well-formed cells among the first `n`. */
  function InteriorCells(page: seq<Byte>, ptrs: nat, n: nat, cell: CellParser): (r: seq<TableInteriorCell>)
    requires ptrs + 2 * n <= |page|
    ensures |r| <= n
  {
    if n == 0 then []
    else
      var c := cell(CellOffset(page, ptrs, n - 1));
      InteriorCells(page, ptrs, n - 1, cell) + if c.Some? then [c.value] else []
  }

  function ParseInterior(page: seq<Byte>, page1: bool): TableInteriorCells {
    var hdr := PeekHeader(page1);
    if |page| < hdr + 12 || page[hdr] != INTERIOR_TABLE then TableInteriorCells(None, [], 0, false)
    else
      var n := Min(CellCount(page, hdr), PointerRoom(page, hdr + 12));
      var cells := InteriorCells(page, hdr + 12, n, InteriorCell(page));
      TableInteriorCells(Some(U32(page, hdr + 8)), cells, n - |cells|, n < CellCount(page, hdr))
  }

  lemma {:induction false} NoInterior(page: seq<Byte>, ptrs: nat, cell: CellParser)
    requires ptrs <= |page|
    ensures InteriorCells(page, ptrs, 0, cell) == []
  {
  }

  lemma OneMoreInterior(page: seq<Byte>, ptrs: nat, n: nat, cell: CellParser)
    requires ptrs + 2 * n + 2 <= |page|
    ensures var c := cell(CellOffset(page, ptrs, n));
            InteriorCells(page, ptrs, n + 1, cell) ==
              InteriorCells(page, ptrs, n, cell) + if c.Some? then [c.value] else []
  {
  }

  /** One cell of the loop, src/tiered/btree_peek.rs:148-160. */
  method ReadInteriorCell(page: seq<Byte>, off: nat) returns (r: Option<TableInteriorCell>)
    ensures r == InteriorCell(page)(off)
  {
    if off + 4 > |page| {
      return None;
    }
    var key := ReadVarintPeek(page, off + 4);
    if key.None? {
      return None;
    }
    return Some(TableInteriorCell(U32(page, off), AsI64(key.value.0)));
  }

  /** src/tiered/btree_peek.rs:129-164 */
  method ParseTableInteriorCells(page: seq<Byte>, page1: bool) returns (out: TableInteriorCells)
    ensures out == ParseInterior(page, page1)
  {
    hide InteriorCells, InteriorCell;
    out := TableInteriorCells(None, [], 0, false);
    var hdr := PeekHeader(page1);
    if |page| < hdr + 12 || page[hdr] != INTERIOR_TABLE {
      return;
    }
    assert InteriorCells(page, hdr + 12, 0, InteriorCell(page)) == [] by {
      NoInterior(page, hdr + 12, InteriorCell(page));
    }
    ghost var cell := InteriorCell(page);
    var cells, malformed, stopped, i := [], 0, false, 0;
    var cellCount := CellCount(page, hdr);
    while i < cellCount
      invariant 0 <= i <= cellCount && i <= PointerRoom(page, hdr + 12) && !stopped
      invariant cells == InteriorCells(page, hdr + 12, i, cell) && malformed == i - |cells|
    {
      var ptrOff := hdr + 12 + i * 2;
      if ptrOff + 2 > |page| {
        stopped := true;
        break;
      }
      var cellOff := U16(page, ptrOff);
      assert cellOff == CellOffset(page, hdr + 12, i);
      OneMoreInterior(page, hdr + 12, i, cell);
      i := i + 1;
      var c := ReadInteriorCell(page, cellOff);
      if c.None? {
        malformed := malformed + 1;
        continue;
      }
      cells := cells + [c.value];
    }
    assert i == Min(cellCount, PointerRoom(page, hdr + 12));
    out := TableInteriorCells(Some(U32(page, hdr + 8)), cells, malformed, stopped);
  }

  function ChildrenOf(cells: seq<TableInteriorCell>): seq<nat> {
    seq(|cells|, i requires 0 <= i < |cells| => cells[i].childPage)
  }

  /** `a` is an in-order subsequence of `b`, at the given positions. */
  ghost predicate SubsequenceAt(a: seq<nat>, b: seq<nat>, at: seq<nat>) {
    && |at| == |a|
    && (forall i, j :: 0 <= i < j < |at| ==> at[i] < at[j])
    && forall i :: 0 <= i < |at| ==> at[i] < |b| && a[i] == b[at[i]]
  }

  /** A parser that, when it accepts a cell, returns the cell's child pointer. */
  ghost predicate ReadsChild(page: seq<Byte>, cell: CellParser) {
    forall off: nat :: cell(off).Some? ==> off + 4 <= |page| && cell(off).value.childPage == U32(page, off)
  }

  /** Cell `i` has a readable child pointer, yet the parser refuses it: its key runs off the page. */
  predicate KeyCutOff(page: seq<Byte>, ptrs: nat, i: nat, cell: CellParser)
    requires ptrs + 2 * i + 2 <= |page|
  {
    var off := CellOffset(page, ptrs, i);
    off + 4 <= |page| && cell(off).None?
  }

  ghost predicate NoKeyCutOff(page: seq<Byte>, ptrs: nat, n: nat, cell: CellParser)
    requires ptrs + 2 * n <= |page|
  {
    forall i :: 0 <= i < n ==> !KeyCutOff(page, ptrs, i, cell)
  }

  lemma SubsequenceSkip(a: seq<nat>, b: seq<nat>, at: seq<nat>, more: seq<nat>)
    requires SubsequenceAt(a, b, at)
    ensures SubsequenceAt(a, b + more, at)
  {
  }

  lemma SubsequenceTake(a: seq<nat>, b: seq<nat>, at: seq<nat>, x: nat)
    requires SubsequenceAt(a, b, at)
    ensures SubsequenceAt(a + [x], b + [x], at + [|b|])
  {
  }

  lemma ChildrenSnoc(cells: seq<TableInteriorCell>, c: TableInteriorCell)
    ensures ChildrenOf(cells + [c]) == ChildrenOf(cells) + [c.childPage]
  {
  }

  lemma CutOffStep(page: seq<Byte>, ptrs: nat, n: nat, cell: CellParser)
    requires ptrs + 2 * n + 2 <= |page|
    ensures NoKeyCutOff(page, ptrs, n + 1, cell) <==>
            NoKeyCutOff(page, ptrs, n, cell) && !KeyCutOff(page, ptrs, n, cell)
  {
    hide KeyCutOff;
  }

  /** What the two parsers add for one cell keeps the subsequence. */
  lemma AgreeStep(cells: seq<TableInteriorCell>, children: seq<nat>, at: seq<nat>, c: Option<TableInteriorCell>,
                  child: Option<nat>)
    returns (at': seq<nat>)
    requires SubsequenceAt(ChildrenOf(cells), children, at) && (c.Some? ==> child == Some(c.value.childPage))
    ensures SubsequenceAt(ChildrenOf(cells + if c.Some? then [c.value] else []),
      children + if child.Some? then [child.value] else [], at')
  {
    hide SubsequenceAt;
    if c.Some? {
      ChildrenSnoc(cells, c.value);
      SubsequenceTake(ChildrenOf(cells), children, at, child.value);
      at' := at + [|children|];
    } else {
      assert cells + [] == cells;
      SubsequenceSkip(ChildrenOf(cells), children, at, if child.Some? then [child.value] else []);
      at' := at;
    }
  }

  function ChildAt(page: seq<Byte>, off: nat): Option<nat> {
    if off + 4 <= |page| then Some(U32(page, off)) else None
  }

  lemma OneMoreChild(page: seq<Byte>, ptrs: nat, n: nat)
    requires ptrs + 2 * n + 2 <= |page|
    ensures var child := ChildAt(page, CellOffset(page, ptrs, n));
            CellChildren(page, ptrs, n + 1) == CellChildren(page, ptrs, n) + if child.Some? then [child.value] else []
  {
  }

  /** How many cells each parser reports among the first `n`. */
  lemma {:induction false} CellsCounted(page: seq<Byte>, ptrs: nat, n: nat, cell: CellParser)
    requires ptrs + 2 * n <= |page| && ReadsChild(page, cell)
    ensures |InteriorCells(page, ptrs, n, cell)| <= |CellChildren(page, ptrs, n)|
    ensures |InteriorCells(page, ptrs, n, cell)| == |CellChildren(page, ptrs, n)| <==> NoKeyCutOff(page, ptrs, n, cell)
    ensures |InteriorCells(page, ptrs, n, cell)| == n ==> NoKeyCutOff(page, ptrs, n, cell)
  {
    if n > 0 {
      hide InteriorCells, CellChildren, NoKeyCutOff, U32, CellOffset;
      CellsCounted(page, ptrs, n - 1, cell);
      OneMoreInterior(page, ptrs, n - 1, cell);
      OneMoreChild(page, ptrs, n - 1);
      CutOffStep(page, ptrs, n - 1, cell);
    }
  }

  lemma {:induction false} CellsAgree(page: seq<Byte>, ptrs: nat, n: nat, cell: CellParser) returns (at: seq<nat>)
    requires ptrs + 2 * n <= |page| && ReadsChild(page, cell)
    ensures SubsequenceAt(ChildrenOf(InteriorCells(page, ptrs, n, cell)), CellChildren(page, ptrs, n), at)
  {
    if n == 0 {
      at := [];
    } else {
      hide InteriorCells, CellChildren, SubsequenceAt, U32, CellOffset, ChildrenOf;
      at := CellsAgree(page, ptrs, n - 1, cell);
      OneMoreInterior(page, ptrs, n - 1, cell);
      OneMoreChild(page, ptrs, n - 1);
      var off := CellOffset(page, ptrs, n - 1);
      at := AgreeStep(InteriorCells(page, ptrs, n - 1, cell), CellChildren(page, ptrs, n - 1), at, cell(off),
        ChildAt(page, off));
    }
  }

  /** A subsequence of full length is the sequence itself. */
  lemma FullSubsequence(a: seq<nat>, b: seq<nat>, at: seq<nat>)
    requires SubsequenceAt(a, b, at) && |a| == |b|
    ensures a == b
  {
    for i := 0 to |at|
      invariant i > 0 ==> at[i - 1] >= i - 1
      invariant forall j :: 0 <= j < i ==> at[j] >= j
    {
    }
    var k := |at|;
    while k > 0
      invariant 0 <= k <= |at|
      invariant forall j :: k <= j < |at| ==> at[j] == j
    {
      k := k - 1;
      assert k + 1 < |at| ==> at[k] < at[k + 1];
    }
  }

  /**
   The two interior parsers on one table-interior page: same rightmost child, same stopping cell,
   peek's children an in-order subsequence of the walker's, and equal exactly when no cell loses
   its key to the end of the page.
   */
  lemma InteriorParsersAgree(page: seq<Byte>, pageNum: nat) returns (at: seq<nat>)
    requires var hdr := HeaderOffset(pageNum); |page| >= hdr + 12 && page[hdr] == INTERIOR_TABLE
    ensures var hdr := HeaderOffset(pageNum);
            var walker, peek := InteriorChildren(page, hdr), ParseInterior(page, pageNum == 0);
            var n := Min(CellCount(page, hdr), PointerRoom(page, hdr + 12));
            && walker != [] && peek.rightmostChildPage == Some(walker[0])
            && (peek.stoppedEarly <==> n < CellCount(page, hdr))
            && SubsequenceAt(ChildrenOf(peek.cells), walker[1..], at)
            && (ChildrenOf(peek.cells) == walker[1..] <==> NoKeyCutOff(page, hdr + 12, n, InteriorCell(page)))
            && (peek.malformedCells == 0 ==> ChildrenOf(peek.cells) == walker[1..])
  {
    hide InteriorCells, CellChildren, SubsequenceAt, NoKeyCutOff, U32;
    var hdr := HeaderOffset(pageNum);
    var n := Min(CellCount(page, hdr), PointerRoom(page, hdr + 12));
    var cell := InteriorCell(page);
    assert ReadsChild(page, cell);
    at := CellsAgree(page, hdr + 12, n, cell);
    CellsCounted(page, hdr + 12, n, cell);
    var walker := InteriorChildren(page, hdr)[1..];
    assert walker == CellChildren(page, hdr + 12, n);
    var peek := InteriorCells(page, hdr + 12, n, cell);
    assert |ChildrenOf(peek)| == |peek|;
    if |peek| == |walker| {
      FullSubsequence(ChildrenOf(peek), walker, at);
    }
  }

  // ---------- index leaf pages ----------

  /** src/tiered/btree_peek.rs:278-292 */
  function PeekSerialSize(serial: nat): (r: Option<nat>)
    ensures r == SerialSize(serial)
  {
    match serial
    case 0 => Some(0)
    case 1 => Some(1)
    case 2 => Some(2)
    case 3 => Some(3)
    case 4 => Some(4)
    case 5 => Some(6)
    case 6 => Some(8)
    case 7 => Some(8)
    case 8 => Some(0)
    case 9 => Some(0)
    case 10 => None
    case 11 => None
    case n => Some((n - 12) / 2)
  }

  /** src/tiered/btree_peek.rs:320-326: an integer key, or none for a column of another type. */
  function RecordIntKey(page: seq<Byte>, off: nat, serial: nat): Option<Option<int>> {
    if 1 <= serial <= 6 || serial == 8 || serial == 9 then
      match ColumnInt(page, off, serial) case None => None case Some(v) => Some(Some(v))
    else Some(None)
  }

  /** The serial types read so far and those between `pos` and the end of the record header. */
  function ReadSerials(page: seq<Byte>, pos: nat, end: nat, serials: seq<nat>): Option<seq<nat>>
    decreases end - pos
  {
    if pos >= end then Some(serials)
    else match PeekVarint(page, pos)
      case None => None
      case Some((serial, used)) => ReadSerials(page, pos + used, end, serials + [serial])
  }

  /** Where the column after these columns begins, if all of them lie inside the payload. */
  function SkipColumns(serials: seq<nat>, pos: nat, end: nat): Option<nat> {
    if serials == [] then Some(pos)
    else match PeekSerialSize(serials[0])
      case None => None
      case Some(size) => if pos + size > end then None else SkipColumns(serials[1..], pos + size, end)
  }

  datatype LeafCell = LeafCell(rowid: int, firstIntKey: Option<int>, overflowed: bool)

  /** The record part of a cell whose payload lies on the page. */
  function ParseRecord(page: seq<Byte>, start: nat, end: nat): Option<LeafCell> {
    match PeekVarint(page, start)
    case None => None
    case Some((headerLen, headerLenBytes)) =>
      if headerLen < headerLenBytes || start + headerLen > end then None
      else match ReadSerials(page, start + headerLenBytes, start + headerLen, [])
        case None => None
        case Some(serials) =>
          if serials == [] then None
          else
            var rowidSerial := serials[|serials| - 1];
            match RecordIntKey(page, start + headerLen, serials[0])
            case None => None
            case Some(key) =>
              match SkipColumns(serials[..|serials| - 1], start + headerLen, end)
              case None => None
              case Some(pos) =>
                var size := PeekSerialSize(rowidSerial);
                if size.None? || pos + size.value > end then None
                else match ColumnInt(page, pos, rowidSerial)
                  case None => None
                  case Some(rowid) => Some(LeafCell(rowid, key, false))
  }

  function ParseLeafCell(page: seq<Byte>, off: nat, maxLocal: nat): Option<LeafCell> {
    match PeekVarint(page, off)
    case None => None
    case Some((payloadLen, used)) =>
      if CheckedAdd(off + used, payloadLen).None? then None
      else if payloadLen > maxLocal then Some(LeafCell(0, None, true))
      else if off + used + payloadLen > |page| then None
      else ParseRecord(page, off + used, off + used + payloadLen)
  }

  /** src/tiered/btree_peek.rs:166-224 */
  method ParseIndexLeafCellRowid(page: seq<Byte>, cellOff: nat, maxLocal: nat) returns (r: Option<LeafCell>)
    ensures r == ParseLeafCell(page, cellOff, maxLocal)
  {
    hide PeekVarint, ParseRecord;
    var length := ReadVarintPeek(page, cellOff);
    if length.None? {
      return None;
    }
    var (payloadLen, payloadLenBytes) := length.value;
    var payloadStart := cellOff + payloadLenBytes;
    var payloadEnd := CheckedAdd(payloadStart, payloadLen);
    if payloadEnd.None? {
      return None;
    }
    if payloadLen > maxLocal {
      return Some(LeafCell(0, None, true));
    }
    if payloadEnd.value > |page| {
      return None;
    }
    r := ParseRecordRowid(page, payloadStart, payloadEnd.value);
  }

  /** src/tiered/btree_peek.rs:188-223 */
  method ParseRecordRowid(page: seq<Byte>, start: nat, end: nat) returns (r: Option<LeafCell>)
    ensures r == ParseRecord(page, start, end)
  {
    hide PeekVarint, ColumnInt, RecordIntKey, PeekSerialSize;
    var header := ReadVarintPeek(page, start);
    if header.None? || header.value.0 < header.value.1 || start + header.value.0 > end {
      return None;
    }
    var headerEnd := start + header.value.0;
    var serials: seq<nat> := [];
    var pos := start + header.value.1;
    while pos < headerEnd
      invariant ReadSerials(page, pos, headerEnd, serials) == ReadSerials(page, start + header.value.1, headerEnd, [])
      decreases headerEnd - pos
    {
      var serial := ReadVarintPeek(page, pos);
      if serial.None? {
        return None;
      }
      pos := pos + serial.value.1;
      serials := serials + [serial.value.0];
    }
    if serials == [] {
      return None;
    }
    var key := RecordIntKey(page, headerEnd, serials[0]);
    if key.None? {
      return None;
    }
    var bodyPos: nat := headerEnd;
    ghost var skipped := serials[..|serials| - 1];
    for i := 0 to |serials| - 1
      invariant SkipColumns(skipped[i..], bodyPos, end) == SkipColumns(skipped, headerEnd, end)
    {
      assert skipped[i..][1..] == skipped[i + 1..];
      var size := PeekSerialSize(serials[i]);
      if size.None? || bodyPos + size.value > end {
        return None;
      }
      bodyPos := bodyPos + size.value;
    }
    var rowidSerial := serials[|serials| - 1];
    var rowidSize := PeekSerialSize(rowidSerial);
    if rowidSize.None? || bodyPos + rowidSize.value > end {
      return None;
    }
    var rowid := ReadRecordInt(page, bodyPos, rowidSerial);
    if rowid.Some? {
      r := Some(LeafCell(rowid.value, key.value, false));
    } else {
      r := None;
    }
  }
}
