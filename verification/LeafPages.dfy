/**
 The leaf reader of the walk (src/btree_walker.rs:244-325) on pages laid out by section 1.6 of the
 file format: it returns the first overflow page of every cell that spills, and nothing else. The
 reader takes the page size as the usable size, so the layout has no reserved bytes.
 */
module LeafPages {
  import opened Common
  import opened SqliteFormat
  import opened Integers
  import opened BtreePages

  /** First overflow pages of the spilling cells, in order. */
  function FirstOverflows(cells: seq<LeafCellContent>, usable: nat, isTable: bool): seq<nat>
    requires usable >= 512
  {
    if cells == [] then []
    else
      var last := cells[|cells| - 1];
      FirstOverflows(cells[..|cells| - 1], usable, isTable)
      + if last.Spills(usable, isTable) then [last.firstOverflow] else []
  }

  lemma StoredInTail(buf: seq<Byte>, off: nat, part: seq<Byte>)
    requires StoredAt(buf, off, part)
    ensures off <= |buf| && StoredAt(buf[off..], 0, part)
  {
    assert buf[off..][0..|part|] == buf[off..off + |part|];
  }

  /** The reader finds a stored varint and its length. */
  lemma VarintAt(buf: seq<Byte>, off: nat, v: nat)
    requires v < TWO_64 && StoredAt(buf, off, EncodeVarint(v))
    ensures off <= |buf| && WalkerVarint(buf[off..]) == (v, |EncodeVarint(v)|)
  {
    hide EncodeVarint, WalkerVarint;
    StoredInTail(buf, off, EncodeVarint(v));
    WalkerInvertsEncoding(buf[off..], v);
  }

  /** Where the parts of a stored cell are. */
  lemma {:induction false} CellParts(buf: seq<Byte>, off: nat, usable: nat, isTable: bool, cell: LeafCellContent)
    returns (pos: nat)
    requires usable >= 512 && cell.Valid() && StoredAt(buf, off, cell.Bytes(usable, isTable))
    ensures off < |buf| && WalkerVarint(buf[off..]) == (|cell.payload|, |EncodeVarint(|cell.payload|)|)
    ensures var n := off + |EncodeVarint(|cell.payload|)|;
            n <= |buf| && pos == if isTable then n + WalkerVarint(buf[n..]).1 else n
    ensures cell.Spills(usable, isTable) ==>
              StoredAt(buf, pos + cell.Local(usable, isTable), PageNumber(cell.firstOverflow))
  {
    hide EncodeVarint, WalkerVarint, MaxLocal, SpilledLocal, PageNumber, StoredAt;
    var length := EncodeVarint(|cell.payload|);
    var rowid := if isTable then EncodeVarint(cell.rowid) else [];
    var local := cell.payload[..cell.Local(usable, isTable)];
    var number := if cell.Spills(usable, isTable) then PageNumber(cell.firstOverflow) else [];
    VarintLength(|cell.payload|);
    FourParts(buf, off, length, rowid, local, number);
    hide LeafCellContent.Bytes;
    VarintAt(buf, off, |cell.payload|);
    if isTable {
      VarintAt(buf, off + |length|, cell.rowid);
    }
    pos := off + |length| + |rowid|;
  }

  lemma FourParts(buf: seq<Byte>, off: nat, a: seq<Byte>, b: seq<Byte>, c: seq<Byte>, d: seq<Byte>)
    requires StoredAt(buf, off, a + (b + (c + d)))
    ensures StoredAt(buf, off, a) && StoredAt(buf, off + |a|, b) && StoredAt(buf, off + |a| + |b| + |c|, d)
    ensures off + |a| + |b| + |c| + |d| <= |buf|
  {
    hide StoredAt;
    StoredParts(buf, off, a, b + (c + d));
    StoredParts(buf, off + |a|, b, c + d);
    StoredParts(buf, off + |a| + |b|, c, d);
    InBounds(buf, off + |a| + |b| + |c|, d);
  }

  lemma InBounds(buf: seq<Byte>, off: nat, part: seq<Byte>)
    requires StoredAt(buf, off, part)
    ensures off + |part| <= |buf|
  {
  }

  /** A stored cell reads as its first overflow page if it spills, and as nothing otherwise. */
  lemma CellOverflowReadBack(buf: seq<Byte>, off: nat, usable: nat, isTable: bool, cell: LeafCellContent)
    requires usable >= 512 && cell.Valid() && StoredAt(buf, off, cell.Bytes(usable, isTable))
    ensures CellReader(buf, usable, isTable)(off) ==
            if cell.Spills(usable, isTable) then Some(cell.firstOverflow) else None
  {
    hide EncodeVarint, WalkerVarint, MaxLocal, SpilledLocal, PageNumber, StoredAt, U32, CellOverflow;
    var pos := CellParts(buf, off, usable, isTable, cell);
    if cell.Spills(usable, isTable) {
      PageNumberAt(buf, pos + cell.Local(usable, isTable), cell.firstOverflow);
    }
    OverflowOf(buf, off, usable, isTable, |cell.payload|, |EncodeVarint(|cell.payload|)|, pos);
  }

  /** The reader's limits are the format's. */
  lemma LimitsAgree(usable: nat, isTable: bool, payload: nat)
    requires usable >= 512
    ensures LocalLimit(usable, isTable) == MaxLocal(usable, isTable)
    ensures payload > MaxLocal(usable, isTable) ==>
              LocalPart(payload, usable, isTable) == SpilledLocal(payload, usable, isTable)
  {
  }

  /** The reader's result, once its varints are known. */
  lemma OverflowOf(buf: seq<Byte>, off: nat, usable: nat, isTable: bool, payload: nat, n: nat, pos: nat)
    requires usable >= 512 && off <= |buf| && WalkerVarint(buf[off..]) == (payload, n) && off + n <= |buf|
    requires pos == if isTable then off + n + WalkerVarint(buf[off + n..]).1 else off + n
    ensures payload <= MaxLocal(usable, isTable) ==> CellOverflow(buf, off, usable, isTable) == None
    ensures payload > MaxLocal(usable, isTable) ==>
              var ptr := pos + SpilledLocal(payload, usable, isTable);
              CellOverflow(buf, off, usable, isTable) ==
                if ptr + 4 <= |buf| && U32(buf, ptr) != 0 then Some(U32(buf, ptr)) else None
  {
    hide WalkerVarint, MaxLocal, SpilledLocal, U32, LocalLimit, LocalPart;
    LimitsAgree(usable, isTable, payload);
  }

  lemma {:induction false} CellsReadBack(buf: seq<Byte>, ptrs: nat, usable: nat, isTable: bool,
                                         cells: seq<LeafCellContent>, reader: nat -> Option<nat>)
    requires usable >= 512 && ptrs + 2 * |cells| <= |buf|
    requires forall i :: 0 <= i < |cells| ==>
               reader(CellOffset(buf, ptrs, i)) ==
                 if cells[i].Spills(usable, isTable) then Some(cells[i].firstOverflow) else None
    ensures CellOverflows(buf, ptrs, |cells|, reader) == FirstOverflows(cells, usable, isTable)
  {
    if cells != [] {
      CellsReadBack(buf, ptrs, usable, isTable, cells[..|cells| - 1], reader);
    }
  }

  /**
   On every leaf page laid out by the format, with payloads of any length, the reader returns
   exactly the first overflow pages of the spilling cells, in order.
   */
  lemma {:induction false} LeafOverflowsRoundTrip(buf: seq<Byte>, hdr: nat, usable: nat, isTable: bool,
                                                  cells: seq<LeafCellContent>)
    requires usable >= 512 && IsLeafPage(buf, hdr, usable, isTable, cells)
    ensures LeafOverflows(buf, hdr, usable, buf[hdr] == LEAF_TABLE) == FirstOverflows(cells, usable, isTable)
  {
    var reader := CellReader(buf, usable, isTable);
    PlacesAgree(buf, hdr, hdr + 8, |cells|);
    hide CellReader, FirstOverflows, CellOverflows, StoredAt;
    forall i | 0 <= i < |cells|
      ensures reader(CellOffset(buf, hdr + 8, i)) ==
              if cells[i].Spills(usable, isTable) then Some(cells[i].firstOverflow) else None
    {
      CellOverflowReadBack(buf, CellPlace(buf, hdr + 8, i), usable, isTable, cells[i]);
    }
    CellsReadBack(buf, hdr + 8, usable, isTable, cells, reader);
  }
}
