/**
 `parse_index_leaf_rowids` (src/tiered/btree_peek.rs:39-85) and its round trip: on a page laid
 out by the file format it returns the rowids that were stored.
 */
module IndexLeaf {
  import opened Common
  import opened SqliteFormat
  import opened Integers
  import opened BtreePages
  import opened BtreePeek

  datatype IndexLeafRowids = IndexLeafRowids(rowids: seq<int>, firstIntKeys: seq<Option<int>>,
                                             overflowCells: nat, malformedCells: nat, stoppedEarly: bool)

  const NOTHING := IndexLeafRowids([], [], 0, 0, false)

  /** src/tiered/btree_peek.rs:235-251 */
  function MaxLocalPayload(usable: nat): nat {
    if usable <= 12 then 0
    else
      var share := (usable - 12) * 64 / 255;
      if share < 23 then 0 else share - 23
  }

  function UsableSize(page: seq<Byte>, page1: bool, usable: Option<nat>): nat {
    match usable
    case Some(u) => Min(u, |page|)
    case None =>
      if page1 then
        var reserved := if |page| > 20 then page[20] as int else 0;
        if |page| < reserved then 0 else |page| - reserved
      else |page|
  }

  type LeafCellParser = nat -> Option<LeafCell>

  function LeafCellAt(page: seq<Byte>, maxLocal: nat): LeafCellParser {
    (off: nat) => ParseLeafCell(page, off, maxLocal)
  }

  /** The loop from cell `i` on. */
  function ScanFrom(page: seq<Byte>, ptrs: nat, i: nat, count: nat, cap: nat, cell: LeafCellParser,
                    out: IndexLeafRowids): IndexLeafRowids
    decreases count - i
  {
    if i >= count then out
    else if |out.rowids| >= cap || ptrs + i * 2 + 2 > |page| then out.(stoppedEarly := true)
    else
      ScanFrom(page, ptrs, i + 1, count, cap, cell, WithCell(out, cell(CellOffset(page, ptrs, i))))
  }

  /** What one cell adds to the result. */
  function WithCell(out: IndexLeafRowids, c: Option<LeafCell>): IndexLeafRowids {
    if c.None? then out.(malformedCells := out.malformedCells + 1)
    else if c.value.overflowed then out.(overflowCells := out.overflowCells + 1)
    else out.(rowids := out.rowids + [c.value.rowid], firstIntKeys := out.firstIntKeys + [c.value.firstIntKey])
  }

  function ParseIndexLeaf(page: seq<Byte>, page1: bool, cap: nat, usable: Option<nat>): IndexLeafRowids {
    var hdr := PeekHeader(page1);
    if cap == 0 || |page| < hdr + 8 || page[hdr] != LEAF_INDEX then NOTHING
    else ScanFrom(page, hdr + 8, 0, CellCount(page, hdr), cap,
                  LeafCellAt(page, MaxLocalPayload(UsableSize(page, page1, usable))), NOTHING)
  }

  method ParseIndexLeafRowids(page: seq<Byte>, page1: bool, cap: nat, usable: Option<nat>)
    returns (out: IndexLeafRowids)
    ensures out == ParseIndexLeaf(page, page1, cap, usable)
  {
    hide ParseLeafCell;
    out := NOTHING;
    var hdr := PeekHeader(page1);
    if cap == 0 || |page| < hdr + 8 || page[hdr] != LEAF_INDEX {
      return;
    }
    var cellCount := CellCount(page, hdr);
    var maxLocal := MaxLocalPayload(UsableSize(page, page1, usable));
    ghost var cell := LeafCellAt(page, maxLocal);
    ghost var result := ScanFrom(page, hdr + 8, 0, cellCount, cap, cell, NOTHING);
    var i := 0;
    while i < cellCount
      invariant 0 <= i <= cellCount
      invariant ScanFrom(page, hdr + 8, i, cellCount, cap, cell, out) == result
    {
      if |out.rowids| >= cap {
        out := out.(stoppedEarly := true);
        return;
      }
      var ptrOff := hdr + 8 + i * 2;
      if ptrOff + 2 > |page| {
        out := out.(stoppedEarly := true);
        return;
      }
      var c := ReadLeafCell(page, U16(page, ptrOff), maxLocal);
      assert U16(page, ptrOff) == CellOffset(page, hdr + 8, i);
      assert ScanFrom(page, hdr + 8, i + 1, cellCount, cap, cell, WithCell(out, c)) == result;
      if c.None? {
        out := out.(malformedCells := out.malformedCells + 1);
      } else if c.value.overflowed {
        out := out.(overflowCells := out.overflowCells + 1);
      } else {
        out := out.(rowids := out.rowids + [c.value.rowid], firstIntKeys := out.firstIntKeys + [c.value.firstIntKey]);
      }
      i := i + 1;
    }
  }

  method ReadLeafCell(page: seq<Byte>, off: nat, maxLocal: nat) returns (r: Option<LeafCell>)
    ensures r == LeafCellAt(page, maxLocal)(off)
  {
    r := ParseIndexLeafCellRowid(page, off, maxLocal);
  }

  // ---------- any bytes ----------

  function CellsSeen(r: IndexLeafRowids): nat { |r.rowids| + r.overflowCells + r.malformedCells }

  lemma {:induction false} ScanCounts(page: seq<Byte>, ptrs: nat, i: nat, count: nat, cap: nat, cell: LeafCellParser,
                                      out: IndexLeafRowids)
    requires i <= count && CellsSeen(out) == i && |out.firstIntKeys| == |out.rowids| <= cap && !out.stoppedEarly
    ensures var r := ScanFrom(page, ptrs, i, count, cap, cell, out);
            && CellsSeen(r) <= count && |r.firstIntKeys| == |r.rowids| <= cap
            && (r.stoppedEarly <==> CellsSeen(r) < count)
            && (r.stoppedEarly ==> |r.rowids| == cap || ptrs + CellsSeen(r) * 2 + 2 > |page|)
    decreases count - i
  {
    hide CellOffset;
    if i < count && |out.rowids| < cap && ptrs + i * 2 + 2 <= |page| {
      ScanCounts(page, ptrs, i + 1, count, cap, cell, WithCell(out, cell(CellOffset(page, ptrs, i))));
    }
  }

  /**
   On any bytes, every cell up to where the scan stopped is counted once, as read, overflowed or
   malformed; it stops early only at the cap or at the end of the page.
   */
  lemma EveryCellIsCounted(page: seq<Byte>, page1: bool, cap: nat, usable: Option<nat>)
    requires cap > 0 && |page| >= (if page1 then 108 else 8) && page[if page1 then 100 else 0] == 0x0A
    ensures var r, hdr := ParseIndexLeaf(page, page1, cap, usable), if page1 then 100 else 0;
            var count := 256 * page[hdr + 3] as int + page[hdr + 4];
            && CellsSeen(r) <= count && |r.firstIntKeys| == |r.rowids| <= cap
            && (r.stoppedEarly <==> CellsSeen(r) < count)
            && (r.stoppedEarly ==> |r.rowids| == cap || hdr + 8 + CellsSeen(r) * 2 + 2 > |page|)
  {
    hide ScanFrom, LeafCellAt, MaxLocalPayload, UsableSize;
    var hdr := PeekHeader(page1);
    ScanCounts(page, hdr + 8, 0, CellCount(page, hdr), cap,
               LeafCellAt(page, MaxLocalPayload(UsableSize(page, page1, usable))), NOTHING);
  }

  // ---------- pages laid out by the format ----------

  /** An index record: any columns, the last of them the integer rowid. */
  predicate IsIndexRecord(r: Record) {
    r.Valid() && r.cols != [] && r.cols[|r.cols| - 1].IsInteger()
  }

  function RowidOf(r: Record): int
    requires IsIndexRecord(r)
  {
    r.cols[|r.cols| - 1].Integer()
  }

  /** The first column's integer, or none if it is not an integer. */
  function FirstKeyOf(r: Record): Option<int>
    requires IsIndexRecord(r)
  {
    if r.cols[0].IsInteger() then Some(r.cols[0].Integer()) else None
  }

  /** An index cell: its record, and where the record goes on if it spills. */
  datatype IndexCell = IndexCell(record: Record, firstOverflow: nat) {
    predicate Valid() {
      IsIndexRecord(record) && |record.Payload()| < TWO_64 && 0 < firstOverflow < 0x1_0000_0000
    }

    function Content(): (c: LeafCellContent)
      requires Valid()
      ensures c.Valid() && c.payload == record.Payload()
    {
      LeafCellContent(record.Payload(), 0, firstOverflow)
    }

    function Rowid(): int
      requires Valid()
    {
      RowidOf(record)
    }

    function FirstKey(): Option<int>
      requires Valid()
    {
      FirstKeyOf(record)
    }

    predicate Spills(usable: nat)
      requires usable >= MIN_USABLE && Valid()
    {
      |record.Payload()| > MaxLocal(usable, false)
    }
  }

  /** The bytes of a page that are not reserved: as told, or by byte 20 of the database header, or all. */
  function Unreserved(page: seq<Byte>, page1: bool, usable: Option<nat>): int {
    if usable.Some? then if usable.value < |page| then usable.value else |page|
    else if page1 && |page| > 20 then |page| - page[20]
    else |page|
  }

  /** Sections 1.6 and 2.1 of the file format: an index leaf holding these cells, at any offsets, in memory. */
  ghost predicate IsIndexLeaf(page: seq<Byte>, page1: bool, usable: Option<nat>, cells: seq<IndexCell>) {
    var hdr, size := if page1 then 100 else 0, Unreserved(page, page1, usable);
    && HasCells(page, hdr, hdr + 8, |cells|) && page[hdr] == 0x0A && size >= MIN_USABLE
    && (forall i :: 0 <= i < |cells| ==> cells[i].Valid())
    && forall i :: 0 <= i < |cells| ==> IsCellAt(page, CellPlace(page, hdr + 8, i), size, cells[i])
  }

  /** A stored cell, and an end of its payload that fits a machine word. */
  ghost predicate IsCellAt(page: seq<Byte>, off: nat, usable: nat, cell: IndexCell)
    requires usable >= MIN_USABLE && cell.Valid()
  {
    && StoredAt(page, off, cell.Content().Bytes(usable, false))
    && off + |EncodeVarint(|cell.record.Payload()|)| + |cell.record.Payload()| < TWO_64
  }

  function SerialsOf(cols: seq<Column>): (s: seq<nat>)
    ensures |s| == |cols|
    ensures forall i :: 0 <= i < |s| ==> s[i] == cols[i].serial
  {
    seq(|cols|, i requires 0 <= i < |cols| => cols[i].serial)
  }

  lemma {:induction false} SerialsRead(page: seq<Byte>, pos: nat, cols: seq<Column>, serials: seq<nat>)
    requires forall i :: 0 <= i < |cols| ==> cols[i].Valid()
    requires StoredAt(page, pos, SerialBytes(cols))
    ensures ReadSerials(page, pos, pos + |SerialBytes(cols)|, serials) ==
            Some(serials + SerialsOf(cols))
    decreases |cols|
  {
    hide PeekVarint, EncodeVarint, StoredAt;
    if cols == [] {
      assert serials + SerialsOf(cols) == serials;
    } else {
      SerialsCons(cols);
      hide SerialBytes, ReadSerials, Column.Valid, SerialsOf;
      var serial, rest := cols[0].serial, cols[1..];
      var used := SerialStored(page, pos, serial, SerialBytes(rest));
      SerialsRead(page, pos + used, rest, serials + [serial]);
      ReadOneSerial(page, pos, pos + used + |SerialBytes(rest)|, serials, serial, used, SerialsOf(rest));
    }
  }

  /** A stored serial type reads back, and the rest follows it. */
  lemma SerialStored(page: seq<Byte>, pos: nat, serial: nat, rest: seq<Byte>) returns (used: nat)
    requires serial < TWO_64 && StoredAt(page, pos, EncodeVarint(serial) + rest)
    ensures used == |EncodeVarint(serial)| && PeekVarint(page, pos) == Some((serial, used))
    ensures StoredAt(page, pos + used, rest)
  {
    hide PeekVarint, EncodeVarint, StoredAt;
    used := |EncodeVarint(serial)|;
    StoredParts(page, pos, EncodeVarint(serial), rest);
    PeekInvertsEncoding(page, pos, serial);
  }

  lemma {:induction false} SerialsCons(cols: seq<Column>)
    requires cols != [] && forall i :: 0 <= i < |cols| ==> cols[i].Valid()
    ensures cols[0].serial < TWO_64 && SerialBytes(cols) == EncodeVarint(cols[0].serial) + SerialBytes(cols[1..])
    ensures SerialsOf(cols) == [cols[0].serial] + SerialsOf(cols[1..])
  {
    hide EncodeVarint;
    assert cols[0].Valid();
  }

  lemma {:induction false} ReadOneSerial(page: seq<Byte>, pos: nat, end: nat, serials: seq<nat>, serial: nat,
                                         used: nat, tail: seq<nat>)
    requires PeekVarint(page, pos) == Some((serial, used)) && pos + used <= end
    requires ReadSerials(page, pos + used, end, serials + [serial]) == Some(serials + [serial] + tail)
    ensures ReadSerials(page, pos, end, serials) == Some(serials + ([serial] + tail))
  {
    assert ReadSerials(page, pos, end, serials) == ReadSerials(page, pos + used, end, serials + [serial]);
    hide PeekVarint, ReadSerials;
    assert serials + [serial] + tail == serials + ([serial] + tail);
  }

  lemma {:induction false} ColumnsSkipped(cols: seq<Column>, serials: seq<nat>, pos: nat, end: nat)
    requires |serials| == |cols| && forall i :: 0 <= i < |cols| ==> cols[i].Valid() && cols[i].serial == serials[i]
    requires pos + |BodyBytes(cols)| <= end
    ensures SkipColumns(serials, pos, end) == Some(pos + |BodyBytes(cols)|)
  {
    if cols != [] {
      assert cols[0].Valid();
      ColumnsSkipped(cols[1..], serials[1..], pos + |cols[0].body|, end);
    }
  }

  lemma IntegerRead(page: seq<Byte>, pos: nat, col: Column)
    requires col.Valid() && col.IsInteger() && StoredAt(page, pos, col.body)
    ensures ColumnInt(page, pos, col.serial) == Some(col.Integer())
  {
  }

  lemma {:induction false} BodySplits(cols: seq<Column>)
    requires cols != []
    ensures BodyBytes(cols) == BodyBytes(cols[..|cols| - 1]) + cols[|cols| - 1].body
  {
    var tail, init, last := cols[1..], cols[..|cols| - 1], cols[|cols| - 1];
    assert BodyBytes(cols) == cols[0].body + BodyBytes(tail);
    if |cols| == 1 {
      assert BodyBytes(tail) == [] && BodyBytes(init) == [];
    } else {
      BodySplits(tail);
      assert init[1..] == tail[..|tail| - 1] && init[0] == cols[0] && tail[|tail| - 1] == last;
      assert BodyBytes(init) == cols[0].body + BodyBytes(init[1..]);
      hide BodyBytes;
    }
  }

  lemma {:induction false} KeyRead(page: seq<Byte>, pos: nat, cols: seq<Column>)
    requires cols != [] && cols[0].Valid() && StoredAt(page, pos, BodyBytes(cols))
    ensures RecordIntKey(page, pos, cols[0].serial) ==
            Some(if cols[0].IsInteger() then Some(cols[0].Integer()) else None)
  {
    hide ColumnInt;
    StoredParts(page, pos, cols[0].body, BodyBytes(cols[1..]));
    if cols[0].IsInteger() {
      IntegerRead(page, pos, cols[0]);
    }
  }

  /** The rowid is where the serial types of the columns before it say it is. */
  lemma {:induction false} RowidRead(page: seq<Byte>, pos: nat, cols: seq<Column>)
    requires cols != [] && (forall i :: 0 <= i < |cols| ==> cols[i].Valid()) && cols[|cols| - 1].IsInteger()
    requires StoredAt(page, pos, BodyBytes(cols))
    ensures var last, init := cols[|cols| - 1], cols[..|cols| - 1];
            var rowidPos := pos + |BodyBytes(init)|;
            && SkipColumns(SerialsOf(cols)[..|cols| - 1], pos, pos + |BodyBytes(cols)|) == Some(rowidPos)
            && PeekSerialSize(last.serial) == Some(|last.body|)
            && rowidPos + |last.body| == pos + |BodyBytes(cols)|
            && ColumnInt(page, rowidPos, last.serial) == Some(last.Integer())
  {
    hide ColumnInt, SkipColumns, BodyBytes, TwosComplement;
    var last, init := cols[|cols| - 1], cols[..|cols| - 1];
    BodySplits(cols);
    StoredParts(page, pos, BodyBytes(init), last.body);
    ColumnsSkipped(init, SerialsOf(cols)[..|cols| - 1], pos, pos + |BodyBytes(cols)|);
    IntegerRead(page, pos + |BodyBytes(init)|, last);
  }

  /** The parser's steps, put together. */
  lemma {:induction false} RecordSteps(page: seq<Byte>, start: nat, headerLen: nat, used: nat, end: nat,
                                       serials: seq<nat>,
                    key: Option<int>, rowidPos: nat, size: nat, rowid: int)
    requires PeekVarint(page, start) == Some((headerLen, used)) && used <= headerLen && start + headerLen <= end
    requires ReadSerials(page, start + used, start + headerLen, []) == Some(serials) && serials != []
    requires RecordIntKey(page, start + headerLen, serials[0]) == Some(key)
    requires SkipColumns(serials[..|serials| - 1], start + headerLen, end) == Some(rowidPos)
    requires PeekSerialSize(serials[|serials| - 1]) == Some(size) && rowidPos + size <= end
    requires ColumnInt(page, rowidPos, serials[|serials| - 1]) == Some(rowid)
    ensures ParseRecord(page, start, end) == Some(LeafCell(rowid, key, false))
  {
    hide PeekVarint, ReadSerials, RecordIntKey, SkipColumns, ColumnInt, PeekSerialSize;
  }

  /** The three parts of a stored record: header length, serial types, bodies. */
  lemma RecordParts(page: seq<Byte>, start: nat, r: Record)
    requires r.Valid() && StoredAt(page, start, r.Payload())
    ensures var header := EncodeVarint(r.headerLen);
            && StoredAt(page, start, header)
            && StoredAt(page, start + |header|, SerialBytes(r.cols))
            && StoredAt(page, start + r.headerLen, BodyBytes(r.cols))
            && r.headerLen == |header| + |SerialBytes(r.cols)|
            && |r.Payload()| == r.headerLen + |BodyBytes(r.cols)|
  {
    hide EncodeVarint, SerialBytes, BodyBytes, StoredAt;
    var header, serialBytes, body := EncodeVarint(r.headerLen), SerialBytes(r.cols), BodyBytes(r.cols);
    assert r.Payload() == header + (serialBytes + body);
    StoredParts(page, start, header, serialBytes + body);
    StoredParts(page, start + |header|, serialBytes, body);
  }

  lemma {:induction false} ReadBackParts(page: seq<Byte>, start: nat, headerLen: nat, cols: seq<Column>)
    requires headerLen < TWO_64 && cols != [] && (forall i :: 0 <= i < |cols| ==> cols[i].Valid())
    requires cols[|cols| - 1].IsInteger()
    requires headerLen == |EncodeVarint(headerLen)| + |SerialBytes(cols)|
    requires StoredAt(page, start, EncodeVarint(headerLen))
    requires StoredAt(page, start + |EncodeVarint(headerLen)|, SerialBytes(cols))
    requires StoredAt(page, start + headerLen, BodyBytes(cols))
    ensures ParseRecord(page, start, start + headerLen + |BodyBytes(cols)|) ==
            Some(LeafCell(cols[|cols| - 1].Integer(), if cols[0].IsInteger() then Some(cols[0].Integer()) else None,
              false))
  {
    hide PeekVarint, EncodeVarint, ReadSerials, RecordIntKey, SkipColumns, ColumnInt, SerialBytes, BodyBytes,
         PeekSerialSize,
         ParseRecord, StoredAt, TwosComplement, SerialSize, Column.Integer, Column.IsInteger, Column.Valid;
    hide SerialsOf;
    var used, body, serials, end := |EncodeVarint(headerLen)|, start + headerLen, SerialsOf(cols),
      start + headerLen + |BodyBytes(cols)|;
    HeaderRead(page, start, headerLen, used, cols);
    KeyRead(page, body, cols);
    var rowidPos, size := RowidPlace(page, body, end, cols);
    RecordSteps(page, start, headerLen, used, end, serials, if cols[0].IsInteger() then Some(cols[0].Integer())
      else None,
                rowidPos, size, cols[|cols| - 1].Integer());
  }

  /** The header reads as its length and the serial types. */
  lemma {:induction false} HeaderRead(page: seq<Byte>, start: nat, headerLen: nat, used: nat, cols: seq<Column>)
    requires headerLen < TWO_64 && cols != [] && forall i :: 0 <= i < |cols| ==> cols[i].Valid()
    requires used == |EncodeVarint(headerLen)| && headerLen == used + |SerialBytes(cols)|
    requires StoredAt(page, start, EncodeVarint(headerLen)) && StoredAt(page, start + used, SerialBytes(cols))
    ensures PeekVarint(page, start) == Some((headerLen, used))
    ensures ReadSerials(page, start + used, start + headerLen, []) == Some(SerialsOf(cols))
    ensures |SerialsOf(cols)| == |cols| && SerialsOf(cols)[0] == cols[0].serial
  {
    hide PeekVarint, EncodeVarint, ReadSerials, SerialBytes, StoredAt, Column.Valid;
    PeekInvertsEncoding(page, start, headerLen);
    SerialsRead(page, start + used, cols, []);
    assert [] + SerialsOf(cols) == SerialsOf(cols);
  }

  /** Where the rowid is and how long. */
  lemma {:induction false} RowidPlace(page: seq<Byte>, pos: nat, end: nat, cols: seq<Column>)
    returns (rowidPos: nat, size: nat)
    requires cols != [] && (forall i :: 0 <= i < |cols| ==> cols[i].Valid()) && cols[|cols| - 1].IsInteger()
    requires StoredAt(page, pos, BodyBytes(cols)) && end == pos + |BodyBytes(cols)|
    ensures |SerialsOf(cols)| == |cols| && SkipColumns(SerialsOf(cols)[..|cols| - 1], pos, end) == Some(rowidPos)
    ensures PeekSerialSize(SerialsOf(cols)[|cols| - 1]) == Some(size) && rowidPos + size <= end
    ensures ColumnInt(page, rowidPos, SerialsOf(cols)[|cols| - 1]) == Some(cols[|cols| - 1].Integer())
  {
    hide SkipColumns, ColumnInt, BodyBytes, PeekSerialSize, StoredAt, Column.Valid, Column.Integer, Column.IsInteger;
    RowidRead(page, pos, cols);
    rowidPos, size := pos + |BodyBytes(cols[..|cols| - 1])|, |cols[|cols| - 1].body|;
  }

  lemma RecordReadBack(page: seq<Byte>, start: nat, r: Record)
    requires IsIndexRecord(r) && StoredAt(page, start, r.Payload())
    ensures ParseRecord(page, start, start + |r.Payload()|) == Some(LeafCell(RowidOf(r), FirstKeyOf(r), false))
  {
    hide EncodeVarint, SerialBytes, BodyBytes, ParseRecord, StoredAt, Column.Integer, Column.IsInteger, Column.Valid,
         Record.Payload;
    RecordParts(page, start, r);
    ReadBackParts(page, start, r.headerLen, r.cols);
  }

  /** The reader's limit is the format's. */
  lemma LimitIs(page: seq<Byte>, page1: bool, usable: Option<nat>)
    requires Unreserved(page, page1, usable) >= MIN_USABLE
    ensures MaxLocalPayload(UsableSize(page, page1, usable)) == MaxLocal(Unreserved(page, page1, usable), false)
  {
  }

  /** What a stored cell reads as: overflowed if it spills, else its rowid and first key. */
  function ReadAs(cell: IndexCell, usable: nat): LeafCell
    requires usable >= MIN_USABLE && cell.Valid()
  {
    if cell.Spills(usable) then LeafCell(0, None, true)
    else LeafCell(cell.Rowid(), cell.FirstKey(), false)
  }

  /** The parts of a stored cell. */
  lemma CellParts(page: seq<Byte>, off: nat, usable: nat, cell: IndexCell)
    requires usable >= MIN_USABLE && cell.Valid() && IsCellAt(page, off, usable, cell)
    ensures var payload := cell.record.Payload();
            && StoredAt(page, off, EncodeVarint(|payload|))
            && (!cell.Spills(usable) ==> StoredAt(page, off + |EncodeVarint(|payload|)|, payload))
  {
    hide EncodeVarint, MaxLocal, SpilledLocal, PageNumber, StoredAt, Record.Payload;
    var content, payload := cell.Content(), cell.record.Payload();
    var length, local := EncodeVarint(|payload|), payload[..content.Local(usable, false)];
    var number := if cell.Spills(usable) then PageNumber(cell.firstOverflow) else [];
    assert content.Bytes(usable, false) == length + ([] + (local + number));
    StoredParts(page, off, length, [] + (local + number));
    if !cell.Spills(usable) {
      assert [] + (local + number) == payload;
    }
  }

  lemma CellReadBack(page: seq<Byte>, off: nat, usable: nat, cell: IndexCell)
    requires usable >= MIN_USABLE && cell.Valid() && IsCellAt(page, off, usable, cell)
    ensures ParseLeafCell(page, off, MaxLocal(usable, false)) == Some(ReadAs(cell, usable))
  {
    hide PeekVarint, EncodeVarint, ParseRecord, Record.Payload, MaxLocal, LeafCellContent.Bytes;
    var payload := cell.record.Payload();
    CellParts(page, off, usable, cell);
    PeekInvertsEncoding(page, off, |payload|);
    if !cell.Spills(usable) {
      RecordReadBack(page, off + |EncodeVarint(|payload|)|, cell.record);
    }
  }

  /** The cells that do not spill, in order. */
  function LocalCells(cells: seq<IndexCell>, usable: nat): (r: seq<IndexCell>)
    requires usable >= MIN_USABLE && forall i :: 0 <= i < |cells| ==> cells[i].Valid()
    ensures |r| <= |cells| && forall i :: 0 <= i < |r| ==> r[i].Valid()
  {
    if cells == [] then []
    else
      var last := cells[|cells| - 1];
      assert last.Valid();
      LocalCells(cells[..|cells| - 1], usable)
      + if |last.record.Payload()| <= MaxLocal(usable, false) then [last] else []
  }

  function Rowids(cells: seq<IndexCell>): (s: seq<int>)
    requires forall i :: 0 <= i < |cells| ==> cells[i].Valid()
    ensures |s| == |cells|
  {
    seq(|cells|, i requires 0 <= i < |cells| => cells[i].Rowid())
  }

  function FirstKeys(cells: seq<IndexCell>): (s: seq<Option<int>>)
    requires forall i :: 0 <= i < |cells| ==> cells[i].Valid()
    ensures |s| == |cells|
  {
    seq(|cells|, i requires 0 <= i < |cells| => cells[i].FirstKey())
  }

  /** The result after scanning these cells and no more. */
  function Scanned(cells: seq<IndexCell>, usable: nat, stoppedEarly: bool): IndexLeafRowids
    requires usable >= MIN_USABLE && forall i :: 0 <= i < |cells| ==> cells[i].Valid()
  {
    var local := LocalCells(cells, usable);
    IndexLeafRowids(Rowids(local), FirstKeys(local), |cells| - |local|, 0, stoppedEarly)
  }

  lemma {:induction false} LocalStep(cells: seq<IndexCell>, n: nat, usable: nat)
    requires usable >= MIN_USABLE && (forall i :: 0 <= i < |cells| ==> cells[i].Valid()) && n < |cells|
    ensures var before := LocalCells(cells[..n], usable);
            LocalCells(cells[..n + 1], usable) == if cells[n].Spills(usable) then before else before + [cells[n]]
  {
    hide MaxLocal, IndexCell.Valid, Record.Payload;
    assert cells[..n + 1][..n] == cells[..n] && cells[..n + 1][n] == cells[n];
    var before := LocalCells(cells[..n], usable);
    assert before + [] == before;
  }

  /** One more cell, spilling or not. */
  lemma {:induction false} ScanOne(cells: seq<IndexCell>, n: nat, usable: nat)
    requires usable >= MIN_USABLE && (forall i :: 0 <= i < |cells| ==> cells[i].Valid()) && n < |cells|
    ensures WithCell(Scanned(cells[..n], usable, false), Some(ReadAs(cells[n], usable))) ==
            Scanned(cells[..n + 1], usable, false)
    ensures |LocalCells(cells[..n + 1], usable)| ==
            |LocalCells(cells[..n], usable)| + if cells[n].Spills(usable) then 0 else 1
  {
    hide MaxLocal, IndexCell.Valid, IndexCell.Rowid, IndexCell.FirstKey, IndexCell.Spills, Record.Payload, LocalCells;
    LocalStep(cells, n, usable);
    var before, after := LocalCells(cells[..n], usable), LocalCells(cells[..n + 1], usable);
    if !cells[n].Spills(usable) {
      assert Rowids(after) == Rowids(before) + [cells[n].Rowid()];
      assert FirstKeys(after) == FirstKeys(before) + [cells[n].FirstKey()];
    }
  }

  /** Every cell reads as it was stored. */
  ghost predicate YieldsCells(page: seq<Byte>, ptrs: nat, parse: LeafCellParser, cells: seq<IndexCell>, usable: nat)
    requires usable >= MIN_USABLE
  {
    && ptrs + 2 * |cells| <= |page|
    && (forall i :: 0 <= i < |cells| ==> cells[i].Valid())
    && forall i :: 0 <= i < |cells| ==> parse(CellOffset(page, ptrs, i)) == Some(ReadAs(cells[i], usable))
  }

  /** The scan goes through the first `n` cells and then ends, or stops with the cap just reached. */
  ghost predicate StopsAt(cells: seq<IndexCell>, usable: nat, cap: nat, n: nat)
    requires usable >= MIN_USABLE && forall i :: 0 <= i < |cells| ==> cells[i].Valid()
  {
    && n <= |cells| && |LocalCells(cells[..n], usable)| <= cap
    && (n < |cells| ==> |LocalCells(cells[..n], usable)| == cap && n > 0 && !cells[n - 1].Spills(usable))
  }

  lemma {:induction false} ScanReturnsCells(page: seq<Byte>, ptrs: nat, i: nat, cap: nat, parse: LeafCellParser,
                                            cells: seq<IndexCell>, usable: nat) returns (n: nat)
    requires usable >= MIN_USABLE && YieldsCells(page, ptrs, parse, cells, usable) && i <= |cells| && cap > 0
    requires |LocalCells(cells[..i], usable)| <= cap
    requires |LocalCells(cells[..i], usable)| == cap ==> i > 0 && !cells[i - 1].Spills(usable)
    ensures StopsAt(cells, usable, cap, n)
    ensures ScanFrom(page, ptrs, i, |cells|, cap, parse, Scanned(cells[..i], usable, false)) ==
            Scanned(cells[..n], usable, n < |cells|)
    decreases |cells| - i
  {
    hide LocalCells, MaxLocal, IndexCell.Valid, IndexCell.Spills, ReadAs, Rowids, FirstKeys, WithCell, CellOffset;
    if i == |cells| || |LocalCells(cells[..i], usable)| == cap {
      n := i;
    } else {
      ScanOne(cells, i, usable);
      n := ScanReturnsCells(page, ptrs, i + 1, cap, parse, cells, usable);
    }
  }

  /**
   On every index leaf laid out by the format, cells in any order, spilling or not: the result is
   that of the cells up to where the cap is reached. Rowids and first-column integers are those of
   the cells that do not spill, in order; the others are counted; nothing is malformed.
   */
  lemma IndexLeafRoundTrip(page: seq<Byte>, page1: bool, cap: nat, usable: Option<nat>, cells: seq<IndexCell>)
    returns (n: nat)
    requires IsIndexLeaf(page, page1, usable, cells)
    ensures cap == 0 ==> ParseIndexLeaf(page, page1, cap, usable) == IndexLeafRowids([], [], 0, 0, false)
    ensures cap > 0 ==>
              && StopsAt(cells, Unreserved(page, page1, usable), cap, n)
              && ParseIndexLeaf(page, page1, cap, usable) ==
                   Scanned(cells[..n], Unreserved(page, page1, usable), n < |cells|)
  {
    hide MaxLocal, MaxLocalPayload, UsableSize, Unreserved, ParseLeafCell, YieldsCells, StopsAt, IsCellAt, HasCells,
         IndexCell.Valid, LocalCells, Scanned, ScanFrom, IndexCell.Spills, Record.Payload, CellCount, CellPlace;
    n := 0;
    if cap > 0 {
      var hdr, size := PeekHeader(page1), Unreserved(page, page1, usable);
      LimitIs(page, page1, usable);
      CellsReadBack(page, page1, usable, cells);
      NothingScanned(cells, size);
      n := ScanReturnsCells(page, hdr + 8, 0, cap, LeafCellAt(page, MaxLocal(size, false)), cells, size);
    }
  }

  lemma CellsReadBack(page: seq<Byte>, page1: bool, usable: Option<nat>, cells: seq<IndexCell>)
    requires IsIndexLeaf(page, page1, usable, cells)
    ensures var hdr, size := PeekHeader(page1), Unreserved(page, page1, usable);
            && |page| >= hdr + 8 && page[hdr] == LEAF_INDEX && CellCount(page, hdr) == |cells|
            && (forall i :: 0 <= i < |cells| ==> cells[i].Valid())
            && YieldsCells(page, hdr + 8, LeafCellAt(page, MaxLocal(size, false)), cells, size)
  {
    var hdr, size := PeekHeader(page1), Unreserved(page, page1, usable);
    PlacesAgree(page, hdr, hdr + 8, |cells|);
    hide MaxLocal, Unreserved, IsCellAt, ParseLeafCell, ReadAs, CellOffset, CellPlace, IndexCell.Valid,
         IndexCell.Spills, Record.Payload;
    var parse := LeafCellAt(page, MaxLocal(size, false));
    forall i | 0 <= i < |cells|
      ensures parse(CellOffset(page, hdr + 8, i)) == Some(ReadAs(cells[i], size))
    {
      CellReadBack(page, CellPlace(page, hdr + 8, i), size, cells[i]);
    }
  }

  lemma NothingScanned(cells: seq<IndexCell>, usable: nat)
    requires usable >= MIN_USABLE && forall i :: 0 <= i < |cells| ==> cells[i].Valid()
    ensures Scanned(cells[..0], usable, false) == NOTHING && |LocalCells(cells[..0], usable)| == 0
  {
  }

  /** If no cell spills, exactly the first `cap` rowids and first-column integers come back. */
  lemma {:induction false} LocalLeafRoundTrip(page: seq<Byte>, page1: bool, cap: nat, usable: Option<nat>,
                                              cells: seq<IndexCell>)
    requires IsIndexLeaf(page, page1, usable, cells)
    requires forall i :: 0 <= i < |cells| ==> !cells[i].Spills(Unreserved(page, page1, usable))
    ensures var n := Min(cap, |cells|);
            ParseIndexLeaf(page, page1, cap, usable) ==
            IndexLeafRowids(Rowids(cells[..n]), FirstKeys(cells[..n]), 0, 0, 0 < cap < |cells|)
  {
    hide ParseIndexLeaf, IsCellAt, MaxLocal, IndexCell.Rowid, IndexCell.FirstKey, Record.Payload;
    var k := IndexLeafRoundTrip(page, page1, cap, usable, cells);
    if cap > 0 {
      AllLocal(cells[..k], Unreserved(page, page1, usable));
    }
  }

  lemma {:induction false} AllLocal(cells: seq<IndexCell>, usable: nat)
    requires usable >= MIN_USABLE && forall i :: 0 <= i < |cells| ==> cells[i].Valid() && !cells[i].Spills(usable)
    ensures LocalCells(cells, usable) == cells
  {
    hide MaxLocal, IndexCell.Valid, Record.Payload, IndexCell.Spills;
    if cells != [] {
      var n := |cells| - 1;
      AllLocal(cells[..n], usable);
      LocalStep(cells, n, usable);
      hide LocalCells;
      assert cells[..n + 1] == cells && cells == cells[..n] + [cells[n]];
    }
  }
}
