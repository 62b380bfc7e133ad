/**
 The bytes of a persisted file (src/local/file_format.rs:11-75, src/local/mod.rs:494-517), position by
 position: where each field and each page is, with every constant written out.
 */
module LocalBytes {
  import opened Common
  import opened LocalFormat
  import opened LocalFile
  import opened Arithmetic

  // ---------- little-endian fields ----------

  function U16At(s: seq<Byte>, at: nat): nat
    requires at + 2 <= |s|
  {
    s[at] as int + 0x100 * s[at + 1] as int
  }

  function U32At(s: seq<Byte>, at: nat): nat
    requires at + 4 <= |s|
  {
    s[at] as int + 0x100 * s[at + 1] as int + 0x1_0000 * s[at + 2] as int + 0x100_0000 * s[at + 3] as int
  }

  function U64At(s: seq<Byte>, at: nat): nat
    requires at + 8 <= |s|
  {
    U32At(s, at) + 0x1_0000_0000 * U32At(s, at + 4)
  }

  lemma {:induction false} TwoBytes(s: seq<Byte>)
    requires |s| == 2
    ensures FromLE(s) == s[0] as int + 0x100 * s[1] as int
  {
    assert FromLE(s[1..]) == s[1] + 256 * FromLE([]);
  }

  lemma {:induction false} FourBytes(s: seq<Byte>, tail: seq<Byte>)
    requires |s| == 4
    ensures FromLE(s + tail) == U32At(s, 0) + 0x1_0000_0000 * FromLE(tail)
  {
    var all := s + tail;
    assert FromLE(all) == s[0] + 256 * FromLE(all[1..]);
    assert all[1..][1..] == all[2..] && all[2..][1..] == all[3..] && all[3..][1..] == tail;
    assert FromLE(all[1..]) == s[1] + 256 * FromLE(all[2..]);
    assert FromLE(all[2..]) == s[2] + 256 * FromLE(all[3..]);
    assert FromLE(all[3..]) == s[3] + 256 * FromLE(tail);
  }

  lemma U16Stored(s: seq<Byte>, at: nat, v: nat)
    requires at + 2 <= |s| && s[at..at + 2] == LE(v, 2) && v < 0x1_0000
    ensures U16At(s, at) == v
  {
    hide LE, FromLE, Pow256;
    Pow256Values();
    LittleEndianRoundTrip(v, 2);
    TwoBytes(s[at..at + 2]);
  }

  lemma U32Stored(s: seq<Byte>, at: nat, v: nat)
    requires at + 4 <= |s| && s[at..at + 4] == LE(v, 4) && v < 0x1_0000_0000
    ensures U32At(s, at) == v
  {
    assert FromLE([]) == 0;
    hide LE, FromLE, Pow256;
    Pow256Values();
    LittleEndianRoundTrip(v, 4);
    var field := s[at..at + 4];
    FourBytes(field, []);
    assert field + [] == field;
  }

  lemma U64Stored(s: seq<Byte>, at: nat, v: nat)
    requires at + 8 <= |s| && s[at..at + 8] == LE(v, 8) && v < TWO_64
    ensures U64At(s, at) == v
  {
    assert FromLE([]) == 0;
    hide LE, FromLE, Pow256;
    Pow256Values();
    LittleEndianRoundTrip(v, 8);
    var low, high := s[at..at + 4], s[at + 4..at + 8];
    assert s[at..at + 8] == low + high && high + [] == high;
    FourBytes(low, high);
    FourBytes(high, []);
  }

  // ---------- the header ----------

  /** The first 64 bytes of a file: magic, version, flags, page size, page count, directory offset, zeros. */
  ghost predicate StartsWith(f: seq<Byte>, flags: nat, pageSize: nat, pageCount: nat, directory: nat) {
    && |f| >= 64
    && f[..10] == [0x54, 0x4C, 0x4C, 0x4F, 0x43, 0x41, 0x4C, 0x31, 0, 1]
    && U16At(f, 10) == flags && U32At(f, 12) == pageSize
    && U64At(f, 16) == pageCount && U64At(f, 24) == directory
    && forall k :: 32 <= k < 64 ==> f[k] == 0
  }

  lemma HeaderIs(h: Header, rest: seq<Byte>)
    requires h.Fits()
    ensures StartsWith(HeaderBytes(h) + rest, h.flags, h.pageSize, h.pageCount, h.directoryOffset)
  {
    hide U16At, U32At, U64At, LE;
    var f := HeaderBytes(h) + rest;
    HeaderFields(h, rest);
    assert forall k :: 32 <= k < 64 ==> f[k] == Zeros(32)[k - 32];
    assert f[..10] == f[0..8] + [f[8], f[9]];
    hide HeaderBytes;
    U16Stored(f, 10, h.flags);
    U32Stored(f, 12, h.pageSize);
    U64Stored(f, 16, h.pageCount);
    U64Stored(f, 24, h.directoryOffset);
  }

  /** Any bytes: a header is accepted exactly when magic, version, page size and directory offset are right. */
  lemma HeaderAcceptedIff(f: seq<Byte>)
    requires |f| >= 64
    ensures DecodeHeader(f).Ok? <==>
            && f[..10] == [0x54, 0x4C, 0x4C, 0x4F, 0x43, 0x41, 0x4C, 0x31, 0, 1]
            && 512 <= U32At(f, 12) <= 65536 && U64At(f, 24) >= 64
  {
    hide FromLE, U32At, U64At;
    FieldsRead(f);
    var start := [0x54, 0x4C, 0x4C, 0x4F, 0x43, 0x41, 0x4C, 0x31, 0, 1];
    assert f[..10] == f[0..8] + [f[8], f[9]] && start == MAGIC + [0, 1];
    if f[..10] == start {
      assert f[..10][8] == 0 && f[..10][9] == 1 && f[..10][..8] == f[0..8] && start[..8] == MAGIC;
    }
  }

  lemma FieldsRead(f: seq<Byte>)
    requires |f| >= 64
    ensures FromLE(f[12..16]) == U32At(f, 12) && FromLE(f[24..32]) == U64At(f, 24)
  {
    assert FromLE([]) == 0;
    hide FromLE;
    var size, low, high := f[12..16], f[24..28], f[28..32];
    FourBytes(size, []);
    FourBytes(low, high);
    FourBytes(high, []);
    assert size + [] == size && high + [] == high && f[24..32] == low + high;
  }

  // ---------- pages ----------

  /** Page `i` of an image; the last one may be short. */
  function ImagePage(image: seq<Byte>, pageSize: nat, i: nat): seq<Byte>
    requires i * pageSize < |image|
  {
    if i * pageSize + pageSize <= |image| then image[i * pageSize..i * pageSize + pageSize] else image[i * pageSize..]
  }

  lemma {:induction false} ChunkAt(image: seq<Byte>, pageSize: nat, i: nat)
    requires pageSize > 0
    ensures i < |Chunks(image, pageSize)| <==> i * pageSize < |image|
    ensures i < |Chunks(image, pageSize)| ==> Chunks(image, pageSize)[i] == ImagePage(image, pageSize, i)
    decreases i
  {
    if i == 0 {
      if image != [] {
        FirstChunk(image, pageSize);
      }
    } else {
      NextMultiple(i - 1, pageSize);
      AtLeastOneMultiple(i, pageSize);
      if |image| > pageSize {
        var rest := image[pageSize..];
        ChunkAt(rest, pageSize, i - 1);
        LaterPage(image, pageSize, i);
      }
    }
  }

  /** A page after the first is a page of the rest. */
  lemma LaterPage(image: seq<Byte>, pageSize: nat, i: nat)
    requires 0 < i && 0 < pageSize < |image|
    ensures i * pageSize < |image| <==> (i - 1) * pageSize < |image| - pageSize
    ensures i * pageSize < |image| ==> ImagePage(image, pageSize, i) == ImagePage(image[pageSize..], pageSize, i - 1)
  {
    NextMultiple(i - 1, pageSize);
    var a, b := (i - 1) * pageSize, i * pageSize;
    assert b == a + pageSize;
    if b < |image| {
      var rest := image[pageSize..];
      if b + pageSize <= |image| {
        assert rest[a..a + pageSize] == image[b..b + pageSize];
      } else {
        assert rest[a..] == image[b..];
      }
    }
  }

  lemma {:induction false} BlobAt(chunks: seq<seq<Byte>>, codec: PageCodec, nonces: nat -> seq<Byte>, from: nat, i: nat)
    requires i < |chunks|
    ensures Blobs(chunks, codec, nonces, from)[i] == codec.EncodePage(chunks[i], nonces(from + i))
  {
    hide PageCodec.EncodePage;
    if i > 0 {
      BlobAt(chunks[1..], codec, nonces, from + 1, i - 1);
    }
  }

  /** An extent says where its blob is. */
  lemma {:induction false} ExtentAt(blobs: seq<seq<Byte>>, start: nat, i: nat)
    requires i < |blobs|
    ensures var e, data := Extents(blobs, start)[i], Flatten(blobs);
            && e.length == |blobs[i]| && start <= e.offset && e.offset + e.length <= start + |data|
            && data[e.offset - start..e.offset - start + e.length] == blobs[i]
  {
    var first, rest := blobs[0], blobs[1..];
    var data, others := Flatten(blobs), Flatten(rest);
    assert data == first + others;
    if i == 0 {
      assert data[..|first|] == first;
    } else {
      ExtentAt(rest, start + |first|, i - 1);
      var e := Extents(rest, start + |first|)[i - 1];
      var at := e.offset - start - |first|;
      assert data[at + |first|..at + |first| + e.length] == others[at..at + e.length];
    }
  }

  lemma {:induction false} EntryStored(entries: seq<Extent>, i: nat)
    requires i < |entries|
    ensures var d := DirectoryBytes(entries);
            && 12 * i + 12 <= |d|
            && d[12 * i..12 * i + 8] == LE(entries[i].offset, 8)
            && d[12 * i + 8..12 * i + 12] == LE(entries[i].length, 4)
  {
    hide LE;
    var a, b, rest := LE(entries[0].offset, 8), LE(entries[0].length, 4), DirectoryBytes(entries[1..]);
    var d := DirectoryBytes(entries);
    assert d == a + b + rest;
    if i == 0 {
      assert d[0..8] == a && d[8..12] == b;
    } else {
      EntryStored(entries[1..], i - 1);
      var k := 12 * (i - 1);
      assert d[k + 12..k + 20] == rest[k..k + 8] && d[k + 20..k + 24] == rest[k + 8..k + 12];
    }
  }

  /** The stored form of a page: a tag byte, 1 if compressed, then the payload, sealed if there is a key. */
  ghost predicate IsBlob(blob: seq<Byte>, codec: PageCodec, page: seq<Byte>, nonce: seq<Byte>) {
    var packed := codec.zstd.pack(page);
    var shorter := codec.compress && |packed| < |page|;
    var payload := if shorter then packed else page;
    && |blob| > 0 && blob[0] == (if shorter then 1 else 0)
    && blob[1..] == match codec.cipher case None => payload case Some(c) => c.seal(nonce, payload)
  }

  lemma BlobIs(codec: PageCodec, page: seq<Byte>, nonce: seq<Byte>)
    ensures IsBlob(codec.EncodePage(page, nonce), codec, page, nonce)
  {
  }

  /** A tag other than 0 and 1 is refused; tag 0 with no key is the page itself. */
  lemma TagsAre(codec: PageCodec, blob: seq<Byte>, pageSize: nat)
    requires |blob| > 0
    ensures blob[0] > 1 ==> codec.DecodePage(blob, pageSize).Err?
    ensures blob[0] == 0 && codec.cipher.None? ==>
              codec.DecodePage(blob, pageSize) == if |blob| == pageSize + 1 then Ok(blob[1..]) else Err
    ensures blob[0] == 1 && codec.cipher.None? && codec.zstd.unpack(blob[1..], pageSize).None? ==>
              codec.DecodePage(blob, pageSize).Err?
  {
  }

  /** Page `i` of the image is stored where entry `i` of the directory says. */
  ghost predicate HoldsPage(f: seq<Byte>, directory: nat, codec: PageCodec, i: nat, page: seq<Byte>, nonce: seq<Byte>) {
    && directory + 12 * i + 12 <= |f|
    && var at, length := U64At(f, directory + 12 * i), U32At(f, directory + 12 * i + 8);
       64 <= at && at + length <= directory && IsBlob(f[at..at + length], codec, page, nonce)
  }

  /** The number of pages of an image. */
  function PageTotal(image: seq<Byte>, pageSize: nat): nat
    requires pageSize > 0
  {
    (|image| + pageSize - 1) / pageSize
  }

  lemma TotalIs(image: seq<Byte>, pageSize: nat)
    requires pageSize > 0
    ensures |Chunks(image, pageSize)| == PageTotal(image, pageSize)
  {
    hide Chunks;
    var n := |Chunks(image, pageSize)|;
    ChunkAt(image, pageSize, n);
    if n > 0 {
      ChunkAt(image, pageSize, n - 1);
      NextMultiple(n - 1, pageSize);
    }
    FrameOf(|image| + pageSize - 1, pageSize, n);
  }

  /** A file made of a header, blobs and a directory holds each blob where the directory says. */
  lemma {:induction false} BlobIsHeld(header: seq<Byte>, blobs: seq<seq<Byte>>, i: nat, codec: PageCodec,
                                      page: seq<Byte>, nonce: seq<Byte>)
    requires |header| == 64 && i < |blobs| && IsBlob(blobs[i], codec, page, nonce)
    requires forall e <- Extents(blobs, 64) :: e.offset < TWO_64 && e.length < 0x1_0000_0000
    ensures var data := Flatten(blobs);
            HoldsPage(header + data + DirectoryBytes(Extents(blobs, 64)), 64 + |data|, codec, i, page, nonce)
  {
    hide Extents, Flatten, DirectoryBytes, IsBlob, LE, U64At, U32At;
    var data, entries := Flatten(blobs), Extents(blobs, 64);
    var directory := DirectoryBytes(entries);
    var f, dir, e := header + data + directory, 64 + |data|, entries[i];
    EntryStored(entries, i);
    ExtentAt(blobs, 64, i);
    SliceOf(header + data, directory, 12 * i, 8);
    SliceOf(header + data, directory, 12 * i + 8, 4);
    U64Stored(f, dir + 12 * i, e.offset);
    U32Stored(f, dir + 12 * i + 8, e.length);
    assert f == header + (data + directory);
    SliceOf(header, data + directory, e.offset - 64, e.length);
    assert (data + directory)[e.offset - 64..e.offset - 64 + e.length] == data[e.offset - 64..e.offset - 64 + e.length];
  }

  lemma SliceOf(a: seq<Byte>, b: seq<Byte>, at: nat, n: nat)
    requires at + n <= |b|
    ensures (a + b)[|a| + at..|a| + at + n] == b[at..at + n]
  {
  }

  /** The whole file: its header, its pages in order, and nothing after the directory. */
  lemma {:induction false} PersistedFileIs(image: seq<Byte>, pageSize: nat, codec: PageCodec, nonces: nat -> seq<Byte>)
    returns (directory: nat)
    requires codec.Lawful() && 512 <= pageSize <= 65536 && |FileBytes(image, pageSize, codec, nonces)| <= MAX_VEC_LEN
    ensures var f := FileBytes(image, pageSize, codec, nonces);
            && StartsWith(f, if codec.cipher.Some? then 1 else 0, pageSize, PageTotal(image, pageSize), directory)
            && |f| == directory + 12 * PageTotal(image, pageSize)
            && forall i: nat :: i < PageTotal(image, pageSize) ==>
                 && i * pageSize < |image|
                 && HoldsPage(f, directory, codec, i, ImagePage(image, pageSize, i), nonces(i))
  {
    hide Chunks, Blobs, Flatten, Extents, HeaderBytes, DirectoryBytes, PageCodec.Lawful, PageCodec.EncodePage, IsBlob,
         StartsWith, HoldsPage, ImagePage, PageTotal;
    var chunks := Chunks(image, pageSize);
    var blobs := Blobs(chunks, codec, nonces, 0);
    var data, extents := Flatten(blobs), Extents(blobs, 64);
    directory := 64 + |data|;
    var header := Header(codec.Flags(), pageSize, |blobs|, directory);
    FlattenLength(chunks, codec, nonces, 0, pageSize);
    ExtentsFit(blobs, 64, pageSize + 1 + CIPHER_OVERHEAD);
    FileRegions(HeaderBytes(header), data, DirectoryBytes(extents));
    HeaderIs(header, data + DirectoryBytes(extents));
    TotalIs(image, pageSize);
    forall i: nat | i < |chunks|
      ensures i * pageSize < |image|
      ensures HoldsPage(FileBytes(image, pageSize, codec, nonces), directory, codec, i, ImagePage(image, pageSize, i),
                        nonces(i))
    {
      ChunkAt(image, pageSize, i);
      BlobAt(chunks, codec, nonces, 0, i);
      BlobIs(codec, chunks[i], nonces(i));
      BlobIsHeld(HeaderBytes(header), blobs, i, codec, chunks[i], nonces(i));
    }
  }
}
