/**
 The single-file database format TLLOCAL1 (src/local/file_format.rs): header, page blobs, page
 directory. Compression and encryption are abstract: a codec carries them as functions, and
 `Lawful` says what is asked of them.
 */
module LocalFormat {
  import opened Common

  const MAGIC: seq<Byte> := [0x54, 0x4C, 0x4C, 0x4F, 0x43, 0x41, 0x4C, 0x31]  // "TLLOCAL1"
  const FORMAT_VERSION: nat := 1
  const HEADER_LEN: nat := 64
  const DIR_ENTRY_LEN: nat := 12
  const MIN_PAGE_SIZE: nat := 512
  const MAX_PAGE_SIZE: nat := 65536
  const FLAG_ENCRYPTED: nat := 1
  const CODEC_RAW: Byte := 0
  const CODEC_ZSTD: Byte := 1

  // ---------- little-endian integers ----------

  /** `to_le_bytes` of an `n`-byte integer. */
  function LE(v: nat, n: nat): (s: seq<Byte>)
    ensures |s| == n
  {
    if n == 0 then [] else [v % 256] + LE(v / 256, n - 1)
  }

  /** `from_le_bytes` */
  function FromLE(s: seq<Byte>): (v: nat)
    ensures v < Pow256(|s|)
  {
    if s == [] then 0 else s[0] + 256 * FromLE(s[1..])
  }

  lemma {:induction false} LittleEndianRoundTrip(v: nat, n: nat)
    requires v < Pow256(n)
    ensures FromLE(LE(v, n)) == v
  {
    if n > 0 {
      LittleEndianRoundTrip(v / 256, n - 1);
      assert LE(v, n)[1..] == LE(v / 256, n - 1);
    }
  }

  // ---------- header ----------

  datatype Header = Header(flags: nat, pageSize: nat, pageCount: nat, directoryOffset: nat) {
    /** The fields fit their stored widths: u16, u32, u64, u64. */
    predicate Fits() {
      && flags < 0x1_0000 && pageSize < 0x1_0000_0000
      && pageCount < 0x1_0000_0000_0000_0000 && directoryOffset < 0x1_0000_0000_0000_0000
    }
  }

  /** The header as stored: the version is big-endian, the other fields little-endian, the rest zero. */
  function HeaderBytes(h: Header): (s: seq<Byte>)
    ensures |s| == HEADER_LEN
  {
    MAGIC + [0, FORMAT_VERSION] + LE(h.flags, 2) + LE(h.pageSize, 4)
    + LE(h.pageCount, 8) + LE(h.directoryOffset, 8) + Zeros(32)
  }

  function DecodeHeader(buf: seq<Byte>): Result<Header> {
    if |buf| < HEADER_LEN then Err
    else if buf[0..8] != MAGIC then Err
    else if buf[8] as int * 256 + buf[9] != FORMAT_VERSION then Err
    else
      var pageSize := FromLE(buf[12..16]);
      var directoryOffset := FromLE(buf[24..32]);
      if !(MIN_PAGE_SIZE <= pageSize <= MAX_PAGE_SIZE) then Err
      else if directoryOffset < HEADER_LEN then Err
      else Ok(Header(FromLE(buf[10..12]), pageSize, FromLE(buf[16..24]), directoryOffset))
  }

  /** `copy_from_slice` into a range of a buffer. */
  function Overwrite(buf: seq<Byte>, at: nat, part: seq<Byte>): (r: seq<Byte>)
    requires at + |part| <= |buf|
    ensures |r| == |buf|
  {
    buf[..at] + part + buf[at + |part|..]
  }

  lemma AppendField(prefix: seq<Byte>, part: seq<Byte>, n: nat)
    requires |part| <= n
    ensures Overwrite(prefix + Zeros(n), |prefix|, part) == (prefix + part) + Zeros(n - |part|)
  {
  }

  /** `Header::encode`, src/local/file_format.rs:65-75 */
  method EncodeHeader(h: Header) returns (buf: seq<Byte>)
    ensures buf == HeaderBytes(h)
  {
    buf := Zeros(HEADER_LEN);
    ghost var done: seq<Byte> := [];
    AppendField(done, MAGIC, 64);
    assert buf == done + buf;
    buf, done := Overwrite(buf, 0, MAGIC), done + MAGIC;
    AppendField(done, [0, FORMAT_VERSION], 56);
    buf, done := Overwrite(buf, 8, [0, FORMAT_VERSION]), done + [0, FORMAT_VERSION];
    AppendField(done, LE(h.flags, 2), 54);
    buf, done := Overwrite(buf, 10, LE(h.flags, 2)), done + LE(h.flags, 2);
    AppendField(done, LE(h.pageSize, 4), 52);
    buf, done := Overwrite(buf, 12, LE(h.pageSize, 4)), done + LE(h.pageSize, 4);
    AppendField(done, LE(h.pageCount, 8), 48);
    buf, done := Overwrite(buf, 16, LE(h.pageCount, 8)), done + LE(h.pageCount, 8);
    AppendField(done, LE(h.directoryOffset, 8), 40);
    buf := Overwrite(buf, 24, LE(h.directoryOffset, 8));
  }

  /** A stored header reads back, whatever follows it, exactly when its page size and directory offset are legal. */
  lemma HeaderRoundTrip(h: Header, rest: seq<Byte>)
    requires h.Fits()
    ensures DecodeHeader(HeaderBytes(h) + rest) ==
            if 512 <= h.pageSize <= 65536 && 64 <= h.directoryOffset then Ok(h) else Err
  {
    hide HeaderBytes, LE, FromLE, Pow256;
    HeaderFields(h, rest);
    Pow256Values();
    LittleEndianRoundTrip(h.flags, 2);
    LittleEndianRoundTrip(h.pageSize, 4);
    LittleEndianRoundTrip(h.pageCount, 8);
    LittleEndianRoundTrip(h.directoryOffset, 8);
  }

  /** Where the fields of a stored header are. */
  lemma HeaderFields(h: Header, rest: seq<Byte>)
    ensures var buf := HeaderBytes(h) + rest;
            && buf[0..8] == MAGIC && buf[8] == 0 && buf[9] == FORMAT_VERSION
            && buf[10..12] == LE(h.flags, 2) && buf[12..16] == LE(h.pageSize, 4)
            && buf[16..24] == LE(h.pageCount, 8) && buf[24..32] == LE(h.directoryOffset, 8)
  {
    hide LE;
  }

  // ---------- page codec ----------

  /** Compression with a cap on the output of decompression. */
  datatype Zstd = Zstd(pack: seq<Byte> -> seq<Byte>, unpack: (seq<Byte>, nat) -> Option<seq<Byte>>)

  /** Authenticated encryption; the nonce is stored with the ciphertext. */
  datatype Cipher = Cipher(seal: (seq<Byte>, seq<Byte>) -> seq<Byte>, unseal: seq<Byte> -> Option<seq<Byte>>)

  /** Nonce and tag of one sealed payload. */
  const CIPHER_OVERHEAD: nat := 28

  datatype PageCodec = PageCodec(compress: bool, zstd: Zstd, cipher: Option<Cipher>) {
    ghost predicate Lawful() {
      && (forall x: seq<Byte>, cap: nat :: |x| <= cap ==> zstd.unpack(zstd.pack(x), cap) == Some(x))
      && (cipher.Some? ==> forall nonce: seq<Byte>, x: seq<Byte> ::
            && cipher.value.unseal(cipher.value.seal(nonce, x)) == Some(x)
            && |cipher.value.seal(nonce, x)| == |x| + CIPHER_OVERHEAD)
    }

    function Flags(): nat { if cipher.Some? then FLAG_ENCRYPTED else 0 }

    /** `encode_page`: a tag byte in the clear, then the payload, compressed only when that is shorter. */
    function EncodePage(page: seq<Byte>, nonce: seq<Byte>): seq<Byte> {
      var packed := zstd.pack(page);
      var shorter := compress && |packed| < |page|;
      var payload := if shorter then packed else page;
      var sealed := if cipher.Some? then cipher.value.seal(nonce, payload) else payload;
      [if shorter then CODEC_ZSTD else CODEC_RAW] + sealed
    }

    /** `decode_page`: the page must come out with exactly `pageSize` bytes. */
    function DecodePage(blob: seq<Byte>, pageSize: nat): (r: Result<seq<Byte>>)
      ensures r.Ok? ==> |r.value| == pageSize
    {
      if blob == [] then Err
      else
        var payload := if cipher.Some? then cipher.value.unseal(blob[1..]) else Some(blob[1..]);
        if payload.None? then Err
        else if blob[0] == CODEC_RAW then
          if |payload.value| != pageSize then Err else Ok(payload.value)
        else if blob[0] == CODEC_ZSTD then
          var page := zstd.unpack(payload.value, pageSize);
          if page.None? || |page.value| != pageSize then Err else Ok(page.value)
        else Err
    }

    /** A page reads back exactly when it is a whole page, for every raw or compressed choice, with or without a key. */
    lemma PageRoundTrip(page: seq<Byte>, nonce: seq<Byte>, pageSize: nat)
      requires Lawful() && |page| <= pageSize
      ensures DecodePage(EncodePage(page, nonce), pageSize) == if |page| == pageSize then Ok(page) else Err
      ensures 1 <= |EncodePage(page, nonce)| <= |page| + 1 + CIPHER_OVERHEAD
    {
      var blob := EncodePage(page, nonce);
      var payload := if compress && |zstd.pack(page)| < |page| then zstd.pack(page) else page;
      assert blob[1..] == if cipher.Some? then cipher.value.seal(nonce, payload) else payload;
    }
  }

  // ---------- directory ----------

  /** Where a page blob lies: offset (u64) and length (u32). */
  datatype Extent = Extent(offset: nat, length: nat)

  function DirectoryBytes(entries: seq<Extent>): (s: seq<Byte>)
    ensures |s| == DIR_ENTRY_LEN * |entries|
  {
    if entries == [] then []
    else LE(entries[0].offset, 8) + LE(entries[0].length, 4) + DirectoryBytes(entries[1..])
  }

  /** The first `count` entries of a directory that starts at the front of `bytes`. */
  function DirectoryEntries(bytes: seq<Byte>, count: nat): (r: seq<Extent>)
    requires count * DIR_ENTRY_LEN <= |bytes|
    ensures |r| == count
  {
    if count == 0 then []
    else [Extent(FromLE(bytes[0..8]), FromLE(bytes[8..12]))] + DirectoryEntries(bytes[12..], count - 1)
  }

  method EncodeDirectory(entries: seq<Extent>) returns (out: seq<Byte>)
    ensures out == DirectoryBytes(entries)
  {
    out := [];
    assert entries[0..] == entries && [] + DirectoryBytes(entries) == DirectoryBytes(entries);
    NoBytes(entries);
    hide DirectoryBytes, LE;
    for i := 0 to |entries|
      invariant out + DirectoryBytes(entries[i..]) == DirectoryBytes(entries)
    {
      NextBytes(entries, i, out);
      out := out + LE(entries[i].offset, 8);
      out := out + LE(entries[i].length, 4);
    }
    assert out + [] == out;
  }

  lemma NoBytes(entries: seq<Extent>)
    ensures DirectoryBytes(entries[|entries|..]) == []
  {
  }

  lemma {:induction false} NextBytes(entries: seq<Extent>, i: nat, out: seq<Byte>)
    requires i < |entries|
    ensures out + LE(entries[i].offset, 8) + LE(entries[i].length, 4) + DirectoryBytes(entries[i + 1..]) ==
            out + DirectoryBytes(entries[i..])
  {
    hide LE;
    assert entries[i..][1..] == entries[i + 1..];
    var a, b, rest := LE(entries[i].offset, 8), LE(entries[i].length, 4), DirectoryBytes(entries[i + 1..]);
    assert DirectoryBytes(entries[i..]) == a + b + rest;
    hide DirectoryBytes;
    assert out + a + b + rest == out + (a + b + rest);
  }

  method DecodeDirectory(bytes: seq<Byte>, count: nat) returns (r: Result<seq<Extent>>)
    ensures r == if count * DIR_ENTRY_LEN <= |bytes| then Ok(DirectoryEntries(bytes, count)) else Err
  {
    if |bytes| < count * DIR_ENTRY_LEN {
      return Err;
    }
    var entries := [];
    assert bytes[0 * 12..] == bytes && entries + DirectoryEntries(bytes, count) == DirectoryEntries(bytes, count);
    NoEntries(bytes[count * 12..]);
    hide DirectoryEntries, EntryAt;
    for i := 0 to count
      invariant entries + DirectoryEntries(bytes[i * 12..], count - i) == DirectoryEntries(bytes, count)
    {
      NextEntry(bytes, i, count);
      var entry := EntryAt(bytes, i * DIR_ENTRY_LEN);
      Regroup(entries, entry, DirectoryEntries(bytes[(i + 1) * 12..], count - (i + 1)));
      entries := entries + [entry];
    }
    assert entries + [] == entries;
    r := Ok(entries);
  }

  function EntryAt(bytes: seq<Byte>, base: nat): Extent
    requires base + DIR_ENTRY_LEN <= |bytes|
  {
    Extent(FromLE(bytes[base..base + 8]), FromLE(bytes[base + 8..base + 12]))
  }

  lemma Regroup(done: seq<Extent>, entry: Extent, rest: seq<Extent>)
    ensures done + ([entry] + rest) == done + [entry] + rest
  {
  }

  lemma NoEntries(bytes: seq<Byte>)
    ensures DirectoryEntries(bytes, 0) == []
  {
  }

  lemma {:induction false} NextEntry(bytes: seq<Byte>, i: nat, count: nat)
    requires i < count && count * DIR_ENTRY_LEN <= |bytes|
    ensures DirectoryEntries(bytes[i * 12..], count - i) ==
            [EntryAt(bytes, i * 12)] + DirectoryEntries(bytes[(i + 1) * 12..], count - (i + 1))
  {
    hide FromLE;
    var tail := bytes[i * 12..];
    assert tail[12..] == bytes[(i + 1) * 12..];
    assert tail[0..8] == bytes[i * 12..i * 12 + 8] && tail[8..12] == bytes[i * 12 + 8..i * 12 + 12];
  }

  lemma {:induction false} DirectoryRoundTrip(entries: seq<Extent>)
    requires forall e <- entries :: e.offset < 0x1_0000_0000_0000_0000 && e.length < 0x1_0000_0000
    ensures DirectoryEntries(DirectoryBytes(entries), |entries|) == entries
  {
    if entries != [] {
      DirectoryRoundTrip(entries[1..]);
      var bytes := DirectoryBytes(entries);
      Pow256Values();
      LittleEndianRoundTrip(entries[0].offset, 8);
      LittleEndianRoundTrip(entries[0].length, 4);
      assert bytes[0..8] == LE(entries[0].offset, 8) && bytes[8..12] == LE(entries[0].length, 4);
      assert bytes[12..] == DirectoryBytes(entries[1..]);
    }
  }
}
