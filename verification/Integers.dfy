/**
 The integer readers of src/btree_walker.rs and src/tiered/btree_peek.rs: two varint readers
 and two record-integer readers, each a loop, and what they have to do with the format.
 */
module Integers {
  import opened Common
  import opened SqliteFormat
  import opened Arithmetic

  // ---------- varint readers ----------

  /** src/btree_walker.rs:517-539 from byte `i` on; a truncated varint yields what was read. */
  function WalkerVarintFrom(s: seq<Byte>, i: nat, val: nat): (r: (nat, nat))
    requires i <= 8 && i <= |s| && val < Pow128(i)
    ensures r.0 < TWO_64 && r.1 <= |s|
    decreases 8 - i
  {
    assert Pow128(8) == TWO_56 by { assert Pow128(4) == 0x1000_0000; }
    if i == 8 then
      if |s| > 8 then (val * 256 + s[8], 9) else (val, |s|)
    else if i >= |s| then
      PowMonotone(i, 8);
      (val, i)
    else
      var v := val * 128 + s[i] % 128;
      if s[i] < 128 then
        PowMonotone(i + 1, 8);
        (v, i + 1)
      else WalkerVarintFrom(s, i + 1, v)
  }

  function WalkerVarint(s: seq<Byte>): (r: (nat, nat))
    ensures r.0 < TWO_64 && r.1 <= |s|
  {
    WalkerVarintFrom(s, 0, 0)
  }

  /** src/tiered/btree_peek.rs:263-276 from byte `i` of the tail on; a truncated varint is refused. */
  function PeekVarintFrom(s: seq<Byte>, i: nat, val: nat): (r: Option<(nat, nat)>)
    requires i <= 8 && val < Pow128(i)
    ensures r.Some? ==> r.value.0 < TWO_64 && 0 < r.value.1 <= |s|
    decreases 8 - i
  {
    assert Pow128(8) == TWO_56 by { assert Pow128(4) == 0x1000_0000; }
    if i >= |s| then None
    else if i == 8 then Some((val * 256 + s[8], 9))
    else
      var v := val * 128 + s[i] % 128;
      if s[i] < 128 then
        PowMonotone(i + 1, 8);
        Some((v, i + 1))
      else PeekVarintFrom(s, i + 1, v)
  }

  function PeekVarint(buf: seq<Byte>, off: nat): (r: Option<(nat, nat)>)
    ensures r.Some? ==> r.value.0 < TWO_64 && 0 < r.value.1 && off + r.value.1 <= |buf|
  {
    if off > |buf| then None else PeekVarintFrom(buf[off..], 0, 0)
  }

  lemma {:induction false} PowMonotone(a: nat, b: nat)
    requires a <= b
    ensures Pow128(a) <= Pow128(b)
    decreases b - a
  {
    if a < b {
      PowMonotone(a, b - 1);
    }
  }

  method ReadVarintWalker(buf: seq<Byte>) returns (val: nat, used: nat)
    ensures (val, used) == WalkerVarint(buf)
  {
    if buf == [] {
      return 0, 0;
    }
    val := 0;
    for i := 0 to 8
      invariant i <= |buf| && val < Pow128(i)
      invariant WalkerVarintFrom(buf, i, val) == WalkerVarint(buf)
    {
      if i >= |buf| {
        return val, i;
      }
      val := val * 128 + buf[i] % 128;
      if buf[i] < 128 {
        return val, i + 1;
      }
    }
    if |buf| > 8 {
      val := val * 256 + buf[8];
      used := 9;
    } else {
      used := |buf|;
    }
  }

  method ReadVarintPeek(buf: seq<Byte>, off: nat) returns (r: Option<(nat, nat)>)
    ensures r == PeekVarint(buf, off)
  {
    if off > |buf| {
      return None;
    }
    var tail := buf[off..];
    var val: nat := 0;
    for i := 0 to 8
      invariant val < Pow128(i)
      invariant PeekVarintFrom(tail, i, val) == PeekVarint(buf, off)
    {
      if i >= |tail| {
        return None;
      }
      val := val * 128 + tail[i] % 128;
      if tail[i] < 128 {
        return Some((val, i + 1));
      }
    }
    if 8 >= |tail| {
      return None;
    }
    return Some((val * 256 + tail[8], 9));
  }

  /** A continued byte shifts its seven bits in. */
  lemma WalkerOneGroup(s: seq<Byte>, i: nat, val: nat, bits: nat)
    requires i < 8 && i < |s| && val < Pow128(i) && bits < 128 && s[i] == 128 + bits
    ensures val * 128 + bits < Pow128(i + 1)
    ensures WalkerVarintFrom(s, i, val) == WalkerVarintFrom(s, i + 1, val * 128 + bits)
  {
    assert s[i] % 128 == bits;
  }

  /** Reading `n` continued groups of `v` shifts all of them in. */
  lemma {:induction false} WalkerReadsLeading(s: seq<Byte>, v: nat, n: nat)
    requires n <= 8 && v < Pow128(n) && StoredAt(s, 0, Groups(v, n))
    ensures n <= |s| && WalkerVarint(s) == WalkerVarintFrom(s, n, v)
  {
    GroupsStep(v, n);
    if n > 0 {
      WalkerReadsLeading(s, v / 128, n - 1);
      hide Groups, Pow128, WalkerVarintFrom, WalkerVarint, StoredAt;
      LeadingStep(s, v, v / 128, v % 128, n);
    }
  }

  lemma LeadingStep(s: seq<Byte>, v: nat, high: nat, low: nat, n: nat)
    requires 0 < n <= 8 && low < 128 && v == high * 128 + low && high < Pow128(n - 1)
    requires StoredAt(s, 0, Groups(high, n - 1) + [128 + low])
    ensures n <= |s| && v < Pow128(n)
    ensures WalkerVarintFrom(s, n - 1, high) == WalkerVarintFrom(s, n, v)
  {
    StoredParts(s, 0, Groups(high, n - 1), [128 + low]);
    hide Groups, Pow128, WalkerVarintFrom;
    StoredByte(s, n - 1, 128 + low);
    WalkerOneGroup(s, n - 1, high, low);
  }

  lemma GroupsStep(v: nat, n: nat)
    requires v < Pow128(n)
    ensures n == 0 ==> v == 0
    ensures n > 0 ==> Groups(v, n) == Groups(v / 128, n - 1) + [128 + v % 128] && v / 128 < Pow128(n - 1)
    ensures v == v / 128 * 128 + v % 128
  {
  }

  lemma StoredByte(s: seq<Byte>, at: nat, b: Byte)
    requires StoredAt(s, at, [b])
    ensures at < |s| && s[at] == b
  {
    assert s[at] == s[at..at + 1][0];
  }

  lemma {:induction false} WalkerReadsShort(buf: seq<Byte>, v: nat, n: nat)
    requires n <= 7 && v / 128 < Pow128(n) && StoredAt(buf, 0, Groups(v / 128, n) + [v % 128])
    ensures WalkerVarint(buf) == (v, n + 1)
  {
    hide Groups, Pow128, WalkerVarintFrom, StoredAt;
    StoredParts(buf, 0, Groups(v / 128, n), [v % 128]);
    WalkerReadsLeading(buf, v / 128, n);
    StoredByte(buf, n, v % 128);
    WalkerLastByte(buf, n, v / 128);
  }

  lemma {:induction false} WalkerLastByte(s: seq<Byte>, i: nat, val: nat)
    requires i < 8 && i < |s| && val < Pow128(i) && s[i] < 128
    ensures WalkerVarintFrom(s, i, val) == (val * 128 + s[i], i + 1)
  {
  }

  /** The walker's reader inverts the encoding, whatever follows it. */
  lemma WalkerInvertsEncoding(buf: seq<Byte>, v: nat)
    requires v < TWO_64 && StoredAt(buf, 0, EncodeVarint(v))
    ensures WalkerVarint(buf) == (v, |EncodeVarint(v)|)
  {
    VarintLength(v);
    hide Groups, Pow128, StoredAt, GroupCount, WalkerVarint;
    if v < TWO_56 {
      WalkerReadsShort(buf, v, GroupCount(v / 128));
    } else {
      WalkerReadsLong(buf, v);
    }
  }

  lemma {:induction false} WalkerReadsLong(buf: seq<Byte>, v: nat)
    requires v / 256 < Pow128(8) && StoredAt(buf, 0, Groups(v / 256, 8) + [v % 256])
    ensures WalkerVarint(buf) == (v, 9)
  {
    StoredParts(buf, 0, Groups(v / 256, 8), [v % 256]);
    hide Groups, Pow128, StoredAt, WalkerVarint;
    WalkerReadsLeading(buf, v / 256, 8);
    StoredByte(buf, 8, v % 256);
  }

  /**
   The readers agree whenever peek's succeeds, and peek's fails exactly when the bytes run out
   before the varint ends.
   */
  lemma {:induction false} VarintReadersAgree(s: seq<Byte>, i: nat, val: nat)
    requires i <= 8 && i <= |s| && val < Pow128(i)
    ensures PeekVarintFrom(s, i, val).Some? ==> PeekVarintFrom(s, i, val).value == WalkerVarintFrom(s, i, val)
    ensures PeekVarintFrom(s, i, val).None? <==> |s| < 9 && forall k :: i <= k < |s| ==> s[k] >= 128
    decreases 8 - i
  {
    if i < 8 && i < |s| && s[i] >= 128 {
      VarintReadersAgree(s, i + 1, val * 128 + s[i] % 128);
    }
  }

  lemma PeekAgreesWithWalker(buf: seq<Byte>, off: nat)
    requires off <= |buf|
    ensures PeekVarint(buf, off).Some? ==> PeekVarint(buf, off).value == WalkerVarint(buf[off..])
    ensures PeekVarint(buf, off).None? <==> |buf| - off < 9 && forall k :: off <= k < |buf| ==> buf[k] >= 128
  {
    var s := buf[off..];
    VarintReadersAgree(s, 0, 0);
    assert forall k :: off <= k < |buf| ==> buf[k] == s[k - off];
  }

  /** Peek's reader inverts the encoding, wherever in the buffer it stands. */
  lemma PeekInvertsEncoding(buf: seq<Byte>, off: nat, v: nat)
    requires v < TWO_64 && StoredAt(buf, off, EncodeVarint(v))
    ensures PeekVarint(buf, off) == Some((v, |EncodeVarint(v)|))
  {
    var s := buf[off..];
    assert s[..|EncodeVarint(v)|] == buf[off..off + |EncodeVarint(v)|];
    WalkerInvertsEncoding(s, v);
    PeekAgreesWithWalker(buf, off);
    VarintLength(v);
    var n := |EncodeVarint(v)|;
    assert buf[off + n - 1] == EncodeVarint(v)[n - 1];
  }

  // ---------- record integers ----------

  /** An `i64` shifted left wraps. */
  function WrapI64(x: int): int {
    (x + TWO_63) % TWO_64 - TWO_63
  }

  /** `1 << (64 - bytes * 8)` */
  function ShiftUnit(bytes: nat): (r: nat)
    ensures r > 0
  {
    match bytes
    case 1 => 0x100_0000_0000_0000
    case 2 => 0x1_0000_0000_0000
    case 3 => 0x100_0000_0000
    case 4 => 0x1_0000_0000
    case 6 => 0x1_0000
    case _ => 1
  }

  /** `(val << shift) >> shift` on an `i64`, for the six stored widths. */
  function SignExtend(val: int, bytes: nat): int {
    WrapI64(val * ShiftUnit(bytes)) / ShiftUnit(bytes)
  }

  function IntWidth(serial: nat): Option<nat> {
    if 1 <= serial <= 4 then Some(serial) else if serial == 5 then Some(6) else if serial == 6 then Some(8) else None
  }

  /** src/btree_walker.rs:576-601 */
  method ReadColumnInt(buf: seq<Byte>, pos: nat, serial: nat) returns (r: Option<int>)
    ensures r == ColumnInt(buf, pos, serial)
  {
    if serial == 0 || serial == 8 {
      return Some(0);
    } else if serial == 9 {
      return Some(1);
    }
    var width := IntWidth(serial);
    if width.None? || pos + width.value > |buf| {
      return None;
    }
    var bytes := width.value;
    var val := 0;
    ghost var src := buf[pos..pos + bytes];
    for i := 0 to bytes
      invariant val == WrapI64(BigEndian(src[..i]))
    {
      WrapShift(BigEndian(src[..i]), buf[pos + i]);
      assert src[..i + 1][..i] == src[..i];
      val := WrapI64(val * 256) + buf[pos + i];
    }
    assert src[..bytes] == src;
    SignExtension(src);
    r := Some(SignExtend(val, bytes));
  }

  /** src/tiered/btree_peek.rs:294-318 */
  method ReadRecordInt(buf: seq<Byte>, off: nat, serial: nat) returns (r: Option<int>)
    ensures r == ColumnInt(buf, off, serial)
  {
    if serial == 0 || serial == 8 {
      return Some(0);
    } else if serial == 9 {
      return Some(1);
    }
    var width := IntWidth(serial);
    if width.None? || off + width.value > |buf| {
      return None;
    }
    var src := buf[off..off + width.value];
    var val := 0;
    var rest := src;
    while rest != []
      invariant |rest| <= |src| && rest == src[|src| - |rest|..]
      invariant val == WrapI64(BigEndian(src[..|src| - |rest|]))
    {
      var i := |src| - |rest|;
      WrapShift(BigEndian(src[..i]), rest[0]);
      assert src[..i + 1][..i] == src[..i];
      val := WrapI64(val * 256) + rest[0];
      rest := rest[1..];
    }
    assert src[..|src|] == src;
    SignExtension(src);
    r := Some(SignExtend(val, width.value));
  }

  /** What both integer readers compute: the two's-complement value the format defines. */
  function ColumnInt(buf: seq<Byte>, off: nat, serial: nat): Option<int> {
    if serial == 0 || serial == 8 then Some(0)
    else if serial == 9 then Some(1)
    else match IntWidth(serial)
      case None => None
      case Some(width) => if off + width > |buf| then None else Some(TwosComplement(buf[off..off + width]))
  }

  /** Shifting a byte into the wrapped value is the wrapped shift; the low byte is zero, so `|` adds. */
  lemma WrapShift(u: nat, b: Byte)
    ensures WrapI64(WrapI64(u) * 256) + b == WrapI64(u * 256 + b)
  {
    var k := (u + TWO_63) / TWO_64;
    assert WrapI64(u) == u - k * TWO_64;
    assert WrapI64(u) * 256 == u * 256 - 256 * k * TWO_64;
    ModShift(u * 256 + TWO_63, -256 * k);
    LowByteIsFree(u, b);
  }

  lemma ModShift(x: int, k: int)
    ensures (x + k * TWO_64) % TWO_64 == x % TWO_64
  {
  }

  lemma LowByteIsFree(u: nat, b: Byte)
    ensures (u * 256 + b + TWO_63) % TWO_64 == (u * 256 + TWO_63) % TWO_64 + b
  {
  }

  lemma {:induction false} BigEndianBounds(s: seq<Byte>)
    ensures BigEndian(s) < Pow256(|s|)
    ensures s != [] ==> (s[0] < 128 <==> 2 * BigEndian(s) < Pow256(|s|))
  {
    if |s| == 1 {
      assert s[..0] == [];
    } else if |s| > 1 {
      var init, last := s[..|s| - 1], s[|s| - 1];
      BigEndianBounds(init);
      assert BigEndian(s) == BigEndian(init) * 256 + last && init[0] == s[0];
      PowStep(|s| - 1);
      hide BigEndian, Pow256;
      BoundsStep(BigEndian(init), Pow256(|s| - 1), last);
    }
  }

  lemma BoundsStep(value: nat, bound: nat, last: Byte)
    requires value < bound && bound % 2 == 0
    ensures value * 256 + last < 256 * bound
    ensures 2 * value < bound <==> 2 * (value * 256 + last) < 256 * bound
  {
    var half := bound / 2;
    assert bound == 2 * half;
  }

  lemma PowStep(n: nat)
    requires n > 0
    ensures Pow256(n) % 2 == 0 && Pow256(n + 1) == 256 * Pow256(n)
  {
  }

  lemma WrapOnce(x: nat)
    requires x < TWO_64
    ensures WrapI64(x) == if x < TWO_63 then x as int else x - TWO_64
  {
  }

  lemma SignExtendNarrow(u: nat, bytes: nat, span: nat)
    requires bytes in {1, 2, 3, 4, 6} && u < span && span * ShiftUnit(bytes) == TWO_64
    ensures SignExtend(WrapI64(u), bytes) == if 2 * u < span then u else u - span
  {
    var unit := ShiftUnit(bytes);
    assert u < TWO_63 && u * unit < TWO_64 && (2 * u < span <==> u * unit < TWO_63) by {
      if bytes == 1 { } else if bytes == 2 { } else if bytes == 3 { } else if bytes == 4 { } else { }
    }
    WrapOnce(u);
    WrapOnce(u * unit);
    if 2 * u < span {
      DivideExactly(u, unit);
    } else {
      assert u * unit - TWO_64 == (u - span) * unit;
      DivideExactly(u - span, unit);
    }
  }

  /** Wrapping, shifting up and back down sign-extends. */
  lemma {:induction false} SignExtension(src: seq<Byte>)
    requires |src| in {1, 2, 3, 4, 6, 8}
    ensures SignExtend(WrapI64(BigEndian(src)), |src|) == TwosComplement(src)
  {
    BigEndianBounds(src);
    Pow256Values();
    if |src| != 8 {
      SignExtendNarrow(BigEndian(src), |src|, Pow256(|src|));
    }
  }
}
