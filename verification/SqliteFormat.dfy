/**
 The parts of the SQLite Database File Format the readers depend on, written from the format
 and not from the readers: big-endian integers, varints (section 1.6 and 2.1), serial types
 and records (section 2.1).
 */
module SqliteFormat {
  import opened Common

  const TWO_63: nat := 0x8000_0000_0000_0000
  const TWO_56: nat := 0x100_0000_0000_0000

  /** `part` is stored in `buf` from `off` on. */
  predicate StoredAt(buf: seq<Byte>, off: nat, part: seq<Byte>) {
    off + |part| <= |buf| && buf[off..off + |part|] == part
  }

  lemma StoredParts(buf: seq<Byte>, off: nat, a: seq<Byte>, b: seq<Byte>)
    requires StoredAt(buf, off, a + b)
    ensures StoredAt(buf, off, a) && StoredAt(buf, off + |a|, b)
  {
    assert buf[off..off + |a|] == buf[off..off + |a + b|][..|a|];
    assert buf[off + |a|..off + |a| + |b|] == buf[off..off + |a + b|][|a|..];
  }

  // ---------- big-endian integers ----------

  function BigEndian(s: seq<Byte>): nat {
    if s == [] then 0 else BigEndian(s[..|s| - 1]) * 256 + s[|s| - 1]
  }

  /** The signed value of a big-endian two's-complement integer. */
  function TwosComplement(s: seq<Byte>): int
    requires s != []
  {
    if s[0] < 128 then BigEndian(s) else BigEndian(s) - Pow256(|s|)
  }

  function U16(s: seq<Byte>, off: nat): (r: nat)
    requires off + 2 <= |s|
  {
    s[off] as int * 256 + s[off + 1]
  }

  function U32(s: seq<Byte>, off: nat): (r: nat)
    requires off + 4 <= |s|
    ensures r < 0x1_0000_0000
  {
    s[off] as int * 0x100_0000 + s[off + 1] as int * 0x1_0000 + s[off + 2] as int * 0x100 + s[off + 3]
  }

  // ---------- varints ----------

  function Pow128(n: nat): (r: nat)
    ensures r > 0
  {
    if n == 0 then 1 else 128 * Pow128(n - 1)
  }

  /** `n` seven-bit groups of `v`, most significant first, all marked as continued. */
  function Groups(v: nat, n: nat): (s: seq<Byte>)
    ensures |s| == n
  {
    if n == 0 then [] else Groups(v / 128, n - 1) + [128 + v % 128]
  }

  function GroupCount(v: nat): nat {
    if v == 0 then 0 else 1 + GroupCount(v / 128)
  }

  /** The shortest varint of a 64-bit value: one to nine bytes, the ninth carrying eight bits. */
  function EncodeVarint(v: nat): seq<Byte>
    requires v < TWO_64
  {
    if v < TWO_56 then Groups(v / 128, GroupCount(v / 128)) + [v % 128]
    else Groups(v / 256, 8) + [v % 256]
  }

  lemma {:induction false} GroupCountBounds(v: nat, k: nat)
    requires v < Pow128(k)
    ensures GroupCount(v) <= k && v < Pow128(GroupCount(v))
  {
    if v != 0 {
      GroupCountBounds(v / 128, k - 1);
    }
  }

  lemma {:induction false} VarintLength(v: nat)
    requires v < TWO_64
    ensures 1 <= |EncodeVarint(v)| <= 9
    ensures v < TWO_56 ==> v / 128 < Pow128(GroupCount(v / 128)) && GroupCount(v / 128) <= 7
    ensures v >= TWO_56 ==> v / 256 < Pow128(8)
  {
    assert Pow128(4) == 0x1000_0000;
    assert Pow128(7) == 0x2_0000_0000_0000 && Pow128(8) == TWO_56;
    if v < TWO_56 {
      GroupCountBounds(v / 128, 7);
    }
  }

  // ---------- records ----------

  /** Content size of a serial type; 10 and 11 are reserved. */
  function SerialSize(serial: nat): Option<nat> {
    if serial <= 4 then Some(serial)
    else if serial == 5 then Some(6)
    else if serial <= 7 then Some(8)
    else if serial <= 9 then Some(0)
    else if serial <= 11 then None
    else if serial % 2 == 0 then Some((serial - 12) / 2)
    else Some((serial - 13) / 2)
  }

  /** One stored column: its serial type and its content bytes. */
  datatype Column = Column(serial: nat, body: seq<Byte>) {
    predicate Valid() {
      serial < TWO_64 && SerialSize(serial) == Some(|body|)
    }

    predicate IsInteger() {
      1 <= serial <= 6 || serial == 8 || serial == 9
    }

    function Integer(): int
      requires Valid() && IsInteger()
    {
      if serial == 8 then 0 else if serial == 9 then 1 else TwosComplement(body)
    }
  }

  function SerialBytes(cols: seq<Column>): seq<Byte>
    requires forall i :: 0 <= i < |cols| ==> cols[i].Valid()
  {
    if cols == [] then [] else assert cols[0].Valid(); EncodeVarint(cols[0].serial) + SerialBytes(cols[1..])
  }

  function BodyBytes(cols: seq<Column>): seq<Byte> {
    if cols == [] then [] else cols[0].body + BodyBytes(cols[1..])
  }

  /** A record; the header length counts its own varint. */
  datatype Record = Record(headerLen: nat, cols: seq<Column>) {
    predicate Valid() {
      && headerLen < TWO_64
      && (forall i :: 0 <= i < |cols| ==> cols[i].Valid())
      && headerLen == |EncodeVarint(headerLen)| + |SerialBytes(cols)|
    }

    function Payload(): seq<Byte>
      requires Valid()
    {
      EncodeVarint(headerLen) + SerialBytes(cols) + BodyBytes(cols)
    }
  }

  // ---------- leaf cells ----------

  /** Section 1.3.4: a page has at least this many bytes that are not reserved. */
  const MIN_USABLE: nat := 480

  /** Section 1.6: the least payload a spilling cell keeps on its own page. */
  function MinLocal(usable: nat): nat
    requires usable >= MIN_USABLE
  {
    (usable - 12) * 32 / 255 - 23
  }

  /** Most payload a leaf cell keeps on its own page. */
  function MaxLocal(usable: nat, isTable: bool): (r: nat)
    requires usable >= MIN_USABLE
    ensures MinLocal(usable) <= r
  {
    if isTable then usable - 35 else (usable - 12) * 64 / 255 - 23
  }

  /** Local part of a payload that spills. */
  function SpilledLocal(payload: nat, usable: nat, isTable: bool): (n: nat)
    requires usable >= MIN_USABLE && payload > MaxLocal(usable, isTable)
    ensures n <= payload
  {
    var surplus := MinLocal(usable) + (payload - MinLocal(usable)) % (usable - 4);
    if surplus <= MaxLocal(usable, isTable) then surplus else MinLocal(usable)
  }

  /** The limits of the usual page sizes, and of the smallest and the largest. */
  lemma KnownLimits()
    ensures MinLocal(512) == 39 && MaxLocal(512, false) == 102 && MaxLocal(512, true) == 477
    ensures MinLocal(4096) == 489 && MaxLocal(4096, false) == 1002 && MaxLocal(4096, true) == 4061
    ensures MinLocal(65536) == 8199 && MaxLocal(65536, false) == 16422 && MaxLocal(65536, true) == 65501
  {
  }

  /** A big-endian page number. */
  function PageNumber(v: nat): (s: seq<Byte>)
    requires v < 0x1_0000_0000
    ensures |s| == 4
  {
    [v / 256 / 256 / 256, v / 256 / 256 % 256, v / 256 % 256, v % 256]
  }

  lemma PageNumberAt(buf: seq<Byte>, off: nat, v: nat)
    requires v < 0x1_0000_0000 && StoredAt(buf, off, PageNumber(v))
    ensures off + 4 <= |buf| && U32(buf, off) == v
  {
    var s := PageNumber(v);
    assert s == buf[off..off + 4];
    assert buf[off] == s[0] && buf[off + 1] == s[1] && buf[off + 2] == s[2] && buf[off + 3] == s[3];
    var a, b := v / 256, v / 256 / 256;
    assert v == 256 * a + v % 256 && a == 256 * b + a % 256 && b == 256 * (b / 256) + b % 256;
  }

  /** A leaf cell: its whole payload, its rowid as 64 bits (tables only), and where the payload goes on if it spills. */
  datatype LeafCellContent = LeafCellContent(payload: seq<Byte>, rowid: nat, firstOverflow: nat) {
    predicate Valid() {
      |payload| < TWO_64 && rowid < TWO_64 && 0 < firstOverflow < 0x1_0000_0000
    }

    predicate Spills(usable: nat, isTable: bool)
      requires usable >= MIN_USABLE
    {
      |payload| > MaxLocal(usable, isTable)
    }

    function Local(usable: nat, isTable: bool): (n: nat)
      requires usable >= MIN_USABLE
      ensures n <= |payload|
    {
      if Spills(usable, isTable) then SpilledLocal(|payload|, usable, isTable) else |payload|
    }

    /** The cell as stored: payload length, rowid, local payload, first overflow page. */
    function Bytes(usable: nat, isTable: bool): seq<Byte>
      requires usable >= MIN_USABLE && Valid()
    {
      EncodeVarint(|payload|)
      + ((if isTable then EncodeVarint(rowid) else [])
         + (payload[..Local(usable, isTable)] + if Spills(usable, isTable) then PageNumber(firstOverflow) else []))
    }
  }

  /** Integers written out. */
  lemma KnownIntegers()
    ensures U16([1, 2], 0) == 0x102 && U32([1, 2, 3, 4], 0) == 0x102_0304 && PageNumber(0x102_0304) == [1, 2, 3, 4]
    ensures BigEndian([1, 2, 3]) == 0x1_0203 && TwosComplement([0x7F, 0xFF]) == 32767
    ensures TwosComplement([0xFF]) == -1 && TwosComplement([0x80, 0]) == -32768
  {
    assert [0x80, 0][..1] == [0x80] && [0x7F, 0xFF][..1] == [0x7F];
    assert BigEndian([1]) == 1 && [1, 2][..1] == [1] && BigEndian([1, 2]) == 0x102 && [1, 2, 3][..2] == [1, 2];
  }

  /** Varints written out. */
  lemma KnownVarints()
    ensures EncodeVarint(0) == [0] && EncodeVarint(127) == [0x7F]
    ensures EncodeVarint(128) == [0x81, 0] && EncodeVarint(129) == [0x81, 1]
  {
    assert Groups(1, 1) == [0x81];
  }

  lemma {:induction false} LongestVarint()
    ensures EncodeVarint(TWO_64 - 1) == seq(9, _ => 0xFF)
  {
    OnesEncoded(8);
    assert Pow128(4) == 0x1000_0000;
    assert Pow128(8) == TWO_56;
    hide Groups, Pow128;
    assert (TWO_64 - 1) / 256 == TWO_56 - 1;
  }

  lemma {:induction false} OnesEncoded(n: nat)
    ensures Groups(Pow128(n) - 1, n) == seq(n, _ => 0xFF)
  {
    if n > 0 {
      OnesEncoded(n - 1);
      assert (Pow128(n) - 1) / 128 == Pow128(n - 1) - 1 && (Pow128(n) - 1) % 128 == 127;
    }
  }

  // ---------- interior cells ----------

  /** An interior cell: its left child, and what follows the pointer (a rowid varint in tables, a key in indexes). */
  datatype InteriorCellContent = InteriorCellContent(child: nat, rest: seq<Byte>) {
    predicate Valid() { child < 0x1_0000_0000 }

    function Bytes(): seq<Byte>
      requires Valid()
    {
      PageNumber(child) + rest
    }
  }

  // ---------- pages ----------

  /** A B-tree page header at `hdr` that counts `n` cells; the pointers to them start at `ptrs`. */
  predicate HasCells(buf: seq<Byte>, hdr: nat, ptrs: nat, n: nat) {
    hdr + 8 <= ptrs && ptrs + 2 * n <= |buf| && 256 * buf[hdr + 3] as int + buf[hdr + 4] == n
  }

  /** Where the header says cell `i` is. */
  function CellPlace(buf: seq<Byte>, ptrs: nat, i: nat): nat
    requires ptrs + 2 * i + 2 <= |buf|
  {
    256 * buf[ptrs + 2 * i] as int + buf[ptrs + 2 * i + 1]
  }

  /** A leaf page: the type byte and the cells, in pointer order, at any offsets. */
  ghost predicate IsLeafPage(buf: seq<Byte>, hdr: nat, usable: nat, isTable: bool, cells: seq<LeafCellContent>)
    requires usable >= MIN_USABLE
  {
    && HasCells(buf, hdr, hdr + 8, |cells|) && buf[hdr] == (if isTable then 0x0D else 0x0A)
    && (forall i :: 0 <= i < |cells| ==> cells[i].Valid())
    && forall i :: 0 <= i < |cells| ==> StoredAt(buf, CellPlace(buf, hdr + 8, i), cells[i].Bytes(usable, isTable))
  }

  /** An interior page: the type byte, the rightmost child, and the cells in pointer order, at any offsets. */
  ghost predicate IsInteriorPage(buf: seq<Byte>, hdr: nat, isTable: bool, rightmost: nat,
                                 cells: seq<InteriorCellContent>) {
    && HasCells(buf, hdr, hdr + 12, |cells|) && buf[hdr] == (if isTable then 0x05 else 0x02)
    && rightmost < 0x1_0000_0000 && StoredAt(buf, hdr + 8, PageNumber(rightmost))
    && (forall i :: 0 <= i < |cells| ==> cells[i].Valid())
    && forall i :: 0 <= i < |cells| ==> StoredAt(buf, CellPlace(buf, hdr + 12, i), cells[i].Bytes())
  }
}
