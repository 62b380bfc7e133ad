/**
 Whole TLLOCAL1 files: what `persist` writes (src/local/mod.rs:490-522) and what `decode_file`
 accepts (src/local/mod.rs:556-621).
 */
module LocalFile {
  import opened Common
  import opened LocalFormat
  import opened Arithmetic

  /** The longest byte vector there can be. */
  const MAX_VEC_LEN: nat := 0x7FFF_FFFF_FFFF_FFFF

  predicate LegalPageSize(pageSize: nat) { 512 <= pageSize <= 65536 }

  // ---------- what persist writes ----------

  /** `chunks(page_size)`: only the last chunk may be short. */
  function Chunks(image: seq<Byte>, pageSize: nat): (r: seq<seq<Byte>>)
    requires pageSize > 0
    ensures forall c <- r :: 0 < |c| <= pageSize
  {
    if image == [] then []
    else if |image| <= pageSize then [image]
    else [image[..pageSize]] + Chunks(image[pageSize..], pageSize)
  }

  /** The stored blob of each chunk; `nonces` is the randomness the cipher draws. */
  function Blobs(chunks: seq<seq<Byte>>, codec: PageCodec, nonces: nat -> seq<Byte>, i: nat): (r: seq<seq<Byte>>)
    ensures |r| == |chunks|
  {
    if chunks == [] then []
    else [codec.EncodePage(chunks[0], nonces(i))] + Blobs(chunks[1..], codec, nonces, i + 1)
  }

  function Flatten(parts: seq<seq<Byte>>): seq<Byte> {
    if parts == [] then [] else parts[0] + Flatten(parts[1..])
  }

  /** Directory entries of blobs laid end to end from `start`. */
  function Extents(blobs: seq<seq<Byte>>, start: nat): (r: seq<Extent>)
    ensures |r| == |blobs|
  {
    if blobs == [] then []
    else [Extent(start, |blobs[0]|)] + Extents(blobs[1..], start + |blobs[0]|)
  }

  function ImageBlobs(image: seq<Byte>, pageSize: nat, codec: PageCodec, nonces: nat -> seq<Byte>): seq<seq<Byte>>
    requires pageSize > 0
  {
    Blobs(Chunks(image, pageSize), codec, nonces, 0)
  }

  function FileBytes(image: seq<Byte>, pageSize: nat, codec: PageCodec, nonces: nat -> seq<Byte>): seq<Byte>
    requires pageSize > 0
  {
    var blobs := ImageBlobs(image, pageSize, codec, nonces);
    var header := Header(codec.Flags(), pageSize, |blobs|, HEADER_LEN + |Flatten(blobs)|);
    HeaderBytes(header) + Flatten(blobs) + DirectoryBytes(Extents(blobs, HEADER_LEN))
  }

  /** The chunk loop of `persist`, src/local/mod.rs:495-504. */
  method EncodeChunks(image: seq<Byte>, pageSize: nat, codec: PageCodec, nonces: nat -> seq<Byte>)
    returns (data: seq<Byte>, directory: seq<Extent>)
    requires pageSize > 0
    ensures data == Flatten(ImageBlobs(image, pageSize, codec, nonces))
    ensures directory == Extents(ImageBlobs(image, pageSize, codec, nonces), HEADER_LEN)
  {
    hide Chunks, Blobs, Flatten, Extents, PageCodec.EncodePage, FirstOf, RestOf;
    data, directory := [], [];
    ghost var blobs := ImageBlobs(image, pageSize, codec, nonces);
    var rest, i := image, 0;
    while rest != []
      invariant data + Flatten(Blobs(Chunks(rest, pageSize), codec, nonces, i)) == Flatten(blobs)
      invariant directory + Extents(Blobs(Chunks(rest, pageSize), codec, nonces, i), HEADER_LEN + |data|) ==
                Extents(blobs, HEADER_LEN)
      decreases |rest|
    {
      ghost var all := Blobs(Chunks(rest, pageSize), codec, nonces, i);
      var chunk, tail := FirstOf(rest, pageSize), RestOf(rest, pageSize);
      FirstBlob(rest, pageSize, chunk, tail, codec, nonces, i, HEADER_LEN + |data|);
      var blob := codec.EncodePage(chunk, nonces(i));
      BlobAppended(data, directory, all, blob, Blobs(Chunks(tail, pageSize), codec, nonces, i + 1));
      directory := directory + [Extent(HEADER_LEN + |data|, |blob|)];
      data := data + blob;
      rest := tail;
      i := i + 1;
    }
    NoBlobs(pageSize, codec, nonces, i, HEADER_LEN + |data|);
    assert data + [] == data && directory + [] == directory;
  }

  /** Appending a blob and its extent leaves the totals as they were. */
  lemma BlobAppended(data: seq<Byte>, directory: seq<Extent>, all: seq<seq<Byte>>, blob: seq<Byte>,
                     others: seq<seq<Byte>>)
    requires Flatten(all) == blob + Flatten(others)
    requires Extents(all, HEADER_LEN + |data|) ==
             [Extent(HEADER_LEN + |data|, |blob|)] + Extents(others, HEADER_LEN + |data| + |blob|)
    ensures data + blob + Flatten(others) == data + Flatten(all)
    ensures directory + [Extent(HEADER_LEN + |data|, |blob|)] + Extents(others, HEADER_LEN + |data + blob|) ==
            directory + Extents(all, HEADER_LEN + |data|)
  {
    hide Flatten, Extents;
    Regroup(data, blob, Flatten(others));
    Regroup(directory, [Extent(HEADER_LEN + |data|, |blob|)], Extents(others, HEADER_LEN + |data| + |blob|));
  }

  lemma Regroup<T>(a: seq<T>, b: seq<T>, c: seq<T>)
    ensures a + (b + c) == a + b + c
  {
  }

  lemma {:induction false} NoBlobs(pageSize: nat, codec: PageCodec, nonces: nat -> seq<Byte>, i: nat, start: nat)
    requires pageSize > 0
    ensures Flatten(Blobs(Chunks([], pageSize), codec, nonces, i)) == []
    ensures Extents(Blobs(Chunks([], pageSize), codec, nonces, i), start) == []
  {
  }

  /** The encoding half of `persist`, src/local/mod.rs:494-517. */
  method EncodeFile(image: seq<Byte>, pageSize: nat, codec: PageCodec, nonces: nat -> seq<Byte>)
    returns (file: seq<Byte>)
    requires pageSize > 0
    ensures file == FileBytes(image, pageSize, codec, nonces)
  {
    hide ImageBlobs, Flatten, HeaderBytes, DirectoryBytes;
    var data, directory := EncodeChunks(image, pageSize, codec, nonces);
    var header := EncodeHeader(Header(codec.Flags(), pageSize, |directory|, HEADER_LEN + |data|));
    var tail := EncodeDirectory(directory);
    file := header + data + tail;
  }

  /** The first chunk of what is left, its blob and its extent. */
  lemma {:induction false} FirstBlob(image: seq<Byte>, pageSize: nat, chunk: seq<Byte>, rest: seq<Byte>,
                                     codec: PageCodec,
                                     nonces: nat -> seq<Byte>, i: nat, start: nat)
    requires pageSize > 0 && image != [] && chunk == FirstOf(image, pageSize) && rest == RestOf(image, pageSize)
    ensures var blob := codec.EncodePage(chunk, nonces(i));
            var all := Blobs(Chunks(image, pageSize), codec, nonces, i);
            var others := Blobs(Chunks(rest, pageSize), codec, nonces, i + 1);
            && Flatten(all) == blob + Flatten(others)
            && Extents(all, start) == [Extent(start, |blob|)] + Extents(others, start + |blob|)
  {
    hide PageCodec.EncodePage, Chunks, Blobs, Flatten, Extents;
    FirstChunk(image, pageSize);
    hide FirstOf, RestOf;
    ConsBlob(chunk, Chunks(rest, pageSize), codec, nonces, i, start);
  }

  function FirstOf(image: seq<Byte>, pageSize: nat): seq<Byte> {
    if |image| <= pageSize then image else image[..pageSize]
  }

  function RestOf(image: seq<Byte>, pageSize: nat): (r: seq<Byte>)
    ensures pageSize > 0 && image != [] ==> |r| < |image|
  {
    if |image| <= pageSize then [] else image[pageSize..]
  }

  lemma {:induction false} ConsBlob(chunk: seq<Byte>, rest: seq<seq<Byte>>, codec: PageCodec,
                                    nonces: nat -> seq<Byte>, i: nat, start: nat)
    ensures var blob := codec.EncodePage(chunk, nonces(i));
            var all, others := Blobs([chunk] + rest, codec, nonces, i), Blobs(rest, codec, nonces, i + 1);
            && Flatten(all) == blob + Flatten(others)
            && Extents(all, start) == [Extent(start, |blob|)] + Extents(others, start + |blob|)
  {
    hide PageCodec.EncodePage, Blobs, Flatten, Extents;
    BlobsCons(chunk, rest, codec, nonces, i);
    FirstPart(codec.EncodePage(chunk, nonces(i)), Blobs(rest, codec, nonces, i + 1), start);
  }

  lemma {:induction false} FirstChunk(image: seq<Byte>, pageSize: nat)
    requires pageSize > 0 && image != []
    ensures Chunks(image, pageSize) == [FirstOf(image, pageSize)] + Chunks(RestOf(image, pageSize), pageSize)
  {
  }

  lemma {:induction false} BlobsCons(chunk: seq<Byte>, rest: seq<seq<Byte>>, codec: PageCodec,
                                     nonces: nat -> seq<Byte>, i: nat)
    ensures Blobs([chunk] + rest, codec, nonces, i) ==
            [codec.EncodePage(chunk, nonces(i))] + Blobs(rest, codec, nonces, i + 1)
  {
    hide PageCodec.EncodePage;
    assert ([chunk] + rest)[1..] == rest;
  }

  lemma {:induction false} FirstPart(blob: seq<Byte>, others: seq<seq<Byte>>, start: nat)
    ensures Flatten([blob] + others) == blob + Flatten(others)
    ensures Extents([blob] + others, start) == [Extent(start, |blob|)] + Extents(others, start + |blob|)
  {
    assert ([blob] + others)[1..] == others;
  }

  // ---------- what decode_file accepts ----------

  /** The extent lies inside the data region `[HEADER_LEN, dirOff)`; the sum is checked against overflow. */
  predicate InDataRegion(e: Extent, dirOff: nat) {
    e.offset + e.length < TWO_64 && HEADER_LEN <= e.offset && e.offset + e.length <= dirOff
  }

  function DecodePages(bytes: seq<Byte>, dirOff: nat, entries: seq<Extent>, codec: PageCodec,
                       pageSize: nat): (r: Result<seq<Byte>>)
    requires dirOff <= |bytes|
  {
    if entries == [] then Ok([])
    else if !InDataRegion(entries[0], dirOff) then Err
    else match codec.DecodePage(bytes[entries[0].offset..entries[0].offset + entries[0].length], pageSize)
      case Err => Err
      case Ok(page) =>
        match DecodePages(bytes, dirOff, entries[1..], codec, pageSize)
        case Err => Err
        case Ok(rest) => Ok(page + rest)
  }

  /** The directory fills the file's tail, and there is room for a data byte and an entry per page. */
  predicate ExactTail(h: Header, size: nat) {
    && h.directoryOffset <= size
    && h.pageCount <= size / (1 + DIR_ENTRY_LEN)
    && h.directoryOffset + h.pageCount * DIR_ENTRY_LEN == size
  }

  function DecodeFile(bytes: seq<Byte>, codec: PageCodec): (r: Result<(seq<Byte>, nat)>) {
    match DecodeHeader(bytes)
    case Err => Err
    case Ok(h) =>
      if (h.flags % 2 != 0) != codec.cipher.Some? || !ExactTail(h, |bytes|) then Err
      else match DecodePages(bytes, h.directoryOffset, DirectoryEntries(bytes[h.directoryOffset..], h.pageCount),
        codec, h.pageSize)
        case Err => Err
        case Ok(image) => Ok((image, h.pageSize))
  }

  ghost function Joined(done: seq<Byte>, rest: Result<seq<Byte>>): Result<seq<Byte>> {
    match rest case Err => Err case Ok(bytes) => Ok(done + bytes)
  }

  /** `decode_file` on any bytes: no index leaves the file and no sum leaves 64 bits. */
  method DecodeLocalFile(bytes: seq<Byte>, codec: PageCodec) returns (r: Result<(seq<Byte>, nat)>)
    requires |bytes| <= MAX_VEC_LEN
    ensures r == DecodeFile(bytes, codec)
  {
    hide DecodeHeader, DecodePages, DirectoryEntries;
    var decoded := DecodeHeader(bytes);
    if decoded.Err? {
      return Err;
    }
    var header := decoded.value;
    var fileEncrypted := header.flags % 2 != 0;
    if fileEncrypted != codec.cipher.Some? {
      return Err;
    }
    var dirOff := header.directoryOffset;
    if dirOff > |bytes| {
      return Err;
    }
    var pageCount := header.pageCount;
    var maxPages := |bytes| / (1 + DIR_ENTRY_LEN);
    if pageCount > maxPages {
      return Err;
    }
    assert dirOff + pageCount * DIR_ENTRY_LEN < TWO_64;
    if dirOff + pageCount * DIR_ENTRY_LEN != |bytes| {
      return Err;
    }
    var directory := DecodeDirectory(bytes[dirOff..], pageCount);
    var entries := directory.value;
    var image := DecodeAllPages(bytes, dirOff, entries, codec, header.pageSize);
    if image.Err? {
      return Err;
    }
    r := Ok((image.value, header.pageSize));
  }

  /** The page loop of `decode_file`, src/local/mod.rs:602-619. */
  method DecodeAllPages(bytes: seq<Byte>, dirOff: nat, entries: seq<Extent>, codec: PageCodec, pageSize: nat)
    returns (r: Result<seq<Byte>>)
    requires dirOff <= |bytes|
    ensures r == DecodePages(bytes, dirOff, entries, codec, pageSize)
  {
    hide PageCodec.DecodePage;
    var image := [];
    ghost var all := DecodePages(bytes, dirOff, entries, codec, pageSize);
    assert entries[0..] == entries && (all.Ok? ==> [] + all.value == all.value);
    for i := 0 to |entries|
      invariant all == Joined(image, DecodePages(bytes, dirOff, entries[i..], codec, pageSize))
    {
      assert entries[i..][1..] == entries[i + 1..];
      var start := entries[i].offset;
      if start + entries[i].length >= TWO_64 {
        return Err;
      }
      var end := start + entries[i].length;
      if start < HEADER_LEN || end > dirOff {
        return Err;
      }
      var page := codec.DecodePage(bytes[start..end], pageSize);
      if page.Err? {
        return Err;
      }
      ghost var rest := DecodePages(bytes, dirOff, entries[i + 1..], codec, pageSize);
      assert rest.Ok? ==> image + (page.value + rest.value) == (image + page.value) + rest.value;
      image := image + page.value;
    }
    assert image + [] == image;
    r := Ok(image);
  }

  // ---------- theorems ----------

  /** Whatever `decode_file` accepts is well formed, and the image has exactly `page_count` pages. */
  lemma AcceptedFilesAreWellFormed(bytes: seq<Byte>, codec: PageCodec)
    requires DecodeFile(bytes, codec).Ok?
    ensures DecodeHeader(bytes).Ok?
    ensures var h := DecodeHeader(bytes).value;
            && LegalPageSize(h.pageSize)
            && h.directoryOffset + DIR_ENTRY_LEN * h.pageCount == |bytes|
            && (forall e <- DirectoryEntries(bytes[h.directoryOffset..], h.pageCount) ::
                  InDataRegion(e, h.directoryOffset))
            && DecodeFile(bytes, codec).value.1 == h.pageSize
            && |DecodeFile(bytes, codec).value.0| == h.pageCount * h.pageSize
  {
    var h := DecodeHeader(bytes).value;
    AcceptedExtents(bytes, h.directoryOffset, DirectoryEntries(bytes[h.directoryOffset..], h.pageCount), codec,
      h.pageSize);
  }

  lemma {:induction false} AcceptedExtents(bytes: seq<Byte>, dirOff: nat, entries: seq<Extent>, codec: PageCodec,
                                           pageSize: nat)
    requires dirOff <= |bytes| && DecodePages(bytes, dirOff, entries, codec, pageSize).Ok?
    ensures forall e <- entries :: InDataRegion(e, dirOff)
    ensures |DecodePages(bytes, dirOff, entries, codec, pageSize).value| == |entries| * pageSize
  {
    hide PageCodec.DecodePage;
    if entries != [] {
      AcceptedExtents(bytes, dirOff, entries[1..], codec, pageSize);
      assert entries == [entries[0]] + entries[1..];
      NextMultiple(|entries| - 1, pageSize);
    }
  }

  ghost predicate AllFull(chunks: seq<seq<Byte>>, pageSize: nat) {
    forall c <- chunks :: |c| == pageSize
  }

  /** Chunking loses nothing. */
  lemma {:induction false} ChunksCover(image: seq<Byte>, pageSize: nat)
    requires pageSize > 0
    ensures Flatten(Chunks(image, pageSize)) == image
  {
    if image != [] {
      if |image| <= pageSize {
        assert Flatten([image]) == image + Flatten([]);
      } else {
        ChunksCover(image[pageSize..], pageSize);
      }
    }
  }

  /** Every chunk is full exactly when the image is a whole number of pages. */
  lemma {:induction false} ChunksFullIffAligned(image: seq<Byte>, pageSize: nat)
    requires pageSize > 0
    ensures AllFull(Chunks(image, pageSize), pageSize) <==> |image| % pageSize == 0
    decreases |image|
  {
    hide Chunks, AllFull;
    if image == [] {
      NoChunks(pageSize);
    } else {
      FirstChunk(image, pageSize);
      var first, rest := FirstOf(image, pageSize), RestOf(image, pageSize);
      ChunksFullIffAligned(rest, pageSize);
      FullTail(first, Chunks(rest, pageSize), pageSize);
      AlignedStep(|image|, pageSize, |first|, |rest|);
    }
  }

  lemma AlignedStep(n: nat, d: nat, first: nat, rest: nat)
    requires d > 0 && n > 0 && first == (if n <= d then n else d) && n == first + rest
    ensures n % d == 0 <==> first == d && rest % d == 0
  {
    if n < d {
      SmallRemainder(n, d);
    } else {
      RemainderStep(n, d);
    }
  }

  lemma {:induction false} NoChunks(pageSize: nat)
    requires pageSize > 0
    ensures AllFull(Chunks([], pageSize), pageSize) && 0 % pageSize == 0
  {
    SmallRemainder(0, pageSize);
  }

  lemma {:induction false} FullTail(first: seq<Byte>, rest: seq<seq<Byte>>, pageSize: nat)
    ensures AllFull([first] + rest, pageSize) <==> |first| == pageSize && AllFull(rest, pageSize)
  {
    var all := [first] + rest;
    assert all[0] in all;
    forall c <- rest
      ensures c in all
    {
      var i :| 0 <= i < |rest| && rest[i] == c;
      assert all[i + 1] == c;
    }
  }

  lemma {:induction false} FlattenLength(chunks: seq<seq<Byte>>, codec: PageCodec, nonces: nat -> seq<Byte>, i: nat,
                                         pageSize: nat)
    requires codec.Lawful() && forall c <- chunks :: |c| <= pageSize
    ensures |Flatten(Blobs(chunks, codec, nonces, i))| >= |chunks|
    ensures forall b <- Blobs(chunks, codec, nonces, i) :: 1 <= |b| <= pageSize + 1 + CIPHER_OVERHEAD
  {
    if chunks != [] {
      codec.PageRoundTrip(chunks[0], nonces(i), pageSize);
      FlattenLength(chunks[1..], codec, nonces, i + 1, pageSize);
    }
  }

  /** Decoding the blobs of some chunks gives the chunks back if all are full pages, and fails otherwise. */
  lemma {:induction false} PagesReadBack(bytes: seq<Byte>, dirOff: nat, start: nat, chunks: seq<seq<Byte>>,
                                         codec: PageCodec,
                                         nonces: nat -> seq<Byte>, i: nat, pageSize: nat)
    requires codec.Lawful() && forall c <- chunks :: |c| <= pageSize
    requires var data := Flatten(Blobs(chunks, codec, nonces, i));
             && HEADER_LEN <= start && start + |data| <= dirOff <= |bytes| <= MAX_VEC_LEN
             && bytes[start..start + |data|] == data
    ensures DecodePages(bytes, dirOff, Extents(Blobs(chunks, codec, nonces, i), start), codec, pageSize) ==
            if AllFull(chunks, pageSize) then Ok(Flatten(chunks)) else Err
    decreases |chunks|
  {
    hide PageCodec.EncodePage, PageCodec.DecodePage, PageCodec.Lawful, Blobs, Flatten, Extents, DecodePages, AllFull;
    if chunks == [] {
      NoPages(bytes, dirOff, start, codec, nonces, i, pageSize);
    } else {
      var first, others := chunks[0], chunks[1..];
      assert chunks == [first] + others && first in chunks;
      assert forall c <- others :: c in chunks;
      var blob, tail := codec.EncodePage(first, nonces(i)), Blobs(others, codec, nonces, i + 1);
      BlobsCons(first, others, codec, nonces, i);
      FirstPart(blob, tail, start);
      FirstPart(first, others, 0);
      codec.PageRoundTrip(first, nonces(i), pageSize);
      SplitData(bytes, start, blob, Flatten(tail));
      FirstPage(bytes, dirOff, start, blob, Extents(tail, start + |blob|), codec, pageSize);
      PagesReadBack(bytes, dirOff, start + |blob|, others, codec, nonces, i + 1, pageSize);
      FullTail(first, others, pageSize);
    }
  }

  lemma {:induction false} NoPages(bytes: seq<Byte>, dirOff: nat, start: nat, codec: PageCodec,
                                   nonces: nat -> seq<Byte>, i: nat, pageSize: nat)
    requires dirOff <= |bytes|
    ensures AllFull([], pageSize)
    ensures DecodePages(bytes, dirOff, Extents(Blobs([], codec, nonces, i), start), codec, pageSize) == Ok(Flatten([]))
  {
  }

  lemma {:induction false} FirstPage(bytes: seq<Byte>, dirOff: nat, start: nat, blob: seq<Byte>, rest: seq<Extent>,
                                     codec: PageCodec, pageSize: nat)
    requires HEADER_LEN <= start && start + |blob| <= dirOff <= |bytes| <= MAX_VEC_LEN
    requires bytes[start..start + |blob|] == blob
    ensures DecodePages(bytes, dirOff, [Extent(start, |blob|)] + rest, codec, pageSize) ==
            var page := codec.DecodePage(blob, pageSize);
            if page.Err? then Err else Joined(page.value, DecodePages(bytes, dirOff, rest, codec, pageSize))
  {
    hide PageCodec.DecodePage;
    assert ([Extent(start, |blob|)] + rest)[1..] == rest;
  }

  lemma SplitData(bytes: seq<Byte>, start: nat, a: seq<Byte>, b: seq<Byte>)
    requires start + |a| + |b| <= |bytes| && bytes[start..start + |a + b|] == a + b
    ensures bytes[start..start + |a|] == a && bytes[start + |a|..start + |a| + |b|] == b
  {
    assert bytes[start..start + |a|] == bytes[start..start + |a + b|][..|a|];
    assert bytes[start + |a|..start + |a| + |b|] == bytes[start..start + |a + b|][|a|..];
  }

  /** Persisted extents tile the data region from the header to the directory. */
  lemma {:induction false} ExtentsTile(blobs: seq<seq<Byte>>, start: nat)
    ensures var e := Extents(blobs, start);
            && (forall i :: 0 <= i < |e| ==> e[i].length == |blobs[i]|)
            && (forall i :: 0 <= i < |e| ==>
                  start <= e[i].offset && e[i].offset + e[i].length <= start + |Flatten(blobs)|)
            && (forall i :: 0 <= i < |e| ==>
                  e[i].offset + e[i].length == if i + 1 < |e| then e[i + 1].offset else start + |Flatten(blobs)|)
            && (e != [] ==> e[0].offset == start)
  {
    if blobs != [] {
      ExtentsTile(blobs[1..], start + |blobs[0]|);
    }
  }

  lemma {:induction false} ExtentsFit(blobs: seq<seq<Byte>>, start: nat, most: nat)
    requires start + |Flatten(blobs)| <= MAX_VEC_LEN && most < 0x1_0000_0000 && forall b <- blobs :: |b| <= most
    ensures forall e <- Extents(blobs, start) :: e.offset < TWO_64 && e.length < 0x1_0000_0000
  {
    ExtentsTile(blobs, start);
    var extents := Extents(blobs, start);
    forall e <- extents
      ensures e.offset < TWO_64 && e.length < 0x1_0000_0000
    {
      var i :| 0 <= i < |extents| && extents[i] == e;
      assert blobs[i] in blobs;
    }
  }

  /** The three regions of a file. */
  lemma FileRegions(header: seq<Byte>, data: seq<Byte>, directory: seq<Byte>)
    ensures var bytes := header + data + directory;
            && bytes == header + (data + directory)
            && bytes[|header|..|header| + |data|] == data
            && bytes[|header| + |data|..] == directory
  {
  }

  /**
   Decoding a persisted file succeeds exactly when the image is a whole number of pages, and then
   returns the image and the page size.
   */
  lemma PersistedFileRoundTrip(image: seq<Byte>, pageSize: nat, codec: PageCodec, nonces: nat -> seq<Byte>)
    requires codec.Lawful() && LegalPageSize(pageSize) && |FileBytes(image, pageSize, codec, nonces)| <= MAX_VEC_LEN
    ensures DecodeFile(FileBytes(image, pageSize, codec, nonces), codec) ==
            if |image| % pageSize == 0 then Ok((image, pageSize)) else Err
  {
    hide Chunks, Blobs, Flatten, Extents, HeaderBytes, DecodeHeader, DirectoryBytes, DirectoryEntries, DecodePages,
         PageCodec.Lawful, AllFull;
    var chunks := Chunks(image, pageSize);
    var blobs := Blobs(chunks, codec, nonces, 0);
    var data := Flatten(blobs);
    var dirOff := HEADER_LEN + |data|;
    var header := Header(codec.Flags(), pageSize, |blobs|, dirOff);
    var extents := Extents(blobs, HEADER_LEN);
    var bytes := FileBytes(image, pageSize, codec, nonces);
    FlattenLength(chunks, codec, nonces, 0, pageSize);
    FileRegions(HeaderBytes(header), data, DirectoryBytes(extents));
    HeaderRoundTrip(header, data + DirectoryBytes(extents));
    ExtentsFit(blobs, HEADER_LEN, pageSize + 1 + CIPHER_OVERHEAD);
    DirectoryRoundTrip(extents);
    PagesReadBack(bytes, dirOff, HEADER_LEN, chunks, codec, nonces, 0, pageSize);
    ChunksCover(image, pageSize);
    ChunksFullIffAligned(image, pageSize);
  }
}
