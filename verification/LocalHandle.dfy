/**
 The open database handle (src/local/mod.rs:435-539, 670-754): a flat image with a dirty flag,
 persisted by atomic replace. `Step` is the handle as a function on values; the class has the
 source's methods, each proved to be that function. The theorems say the handle refines a
 plain file under crashes.
 */
module LocalHandle {
  import opened Common
  import opened LocalFormat
  import opened LocalFile

  // ---------- the image as a byte array ----------

  /** `Vec::resize` with zeros. */
  function Resize(image: seq<Byte>, size: nat): (r: seq<Byte>)
    ensures |r| == size
  {
    if size <= |image| then image[..size] else image + Zeros(size - |image|)
  }

  function ImageWrite(image: seq<Byte>, buf: seq<Byte>, offset: nat): seq<Byte> {
    var end := offset + |buf|;
    var grown := if end > |image| then Resize(image, end) else image;
    grown[..offset] + buf + grown[end..]
  }

  // ---------- the handle on values ----------

  datatype Handle = Handle(image: seq<Byte>, dirty: bool, pageSize: nat)

  /** The file at the database path, if any, and the open handle, if any. */
  datatype Local = Local(disk: Option<seq<Byte>>, handle: Option<Handle>)

  /**
   `ioOk` says whether the temp file, its sync and the rename all succeed; `renamed` whether a
   crash came after the rename of a persist in progress; `nonces` is the cipher's randomness.
   */
  datatype Op =
    | Open(pageSize: nat)
    | Write(buf: seq<Byte>, offset: nat)
    | SetLen(size: nat)
    | Sync(ioOk: bool, nonces: nat -> seq<Byte>)
    | Close(ioOk: bool, nonces: nat -> seq<Byte>)
    | Crash(renamed: bool, nonces: nat -> seq<Byte>)

  /** A file too long for a byte vector is never built: the attempt ends the process. */
  ghost predicate Buildable(h: Handle, codec: PageCodec, nonces: nat -> seq<Byte>) {
    h.pageSize > 0 && |FileBytes(h.image, h.pageSize, codec, nonces)| <= MAX_VEC_LEN
  }

  ghost function OpenDisk(disk: Option<seq<Byte>>, codec: PageCodec, pageSize: nat): Result<Handle> {
    if disk.None? || disk.value == [] then Ok(Handle([], false, pageSize))
    else match DecodeFile(disk.value, codec)
      case Err => Err
      case Ok((image, size)) => Ok(Handle(image, false, size))
  }

  ghost function Saved(disk: Option<seq<Byte>>, h: Handle, codec: PageCodec,
                       nonces: nat -> seq<Byte>): Option<seq<Byte>> {
    if h.dirty && Buildable(h, codec, nonces) then Some(FileBytes(h.image, h.pageSize, codec, nonces)) else disk
  }

  /** One operation. Operations on a closed handle, and opening an open one, do nothing. */
  ghost function Step(s: Local, codec: PageCodec, op: Op): Local {
    match s.handle
    case None =>
      if op.Open? then
        match OpenDisk(s.disk, codec, op.pageSize) case Err => s case Ok(h) => Local(s.disk, Some(h))
      else s
    case Some(h) =>
      match op
      case Open(_) => s
      case Write(buf, offset) => Local(s.disk, Some(h.(image := ImageWrite(h.image, buf, offset), dirty := true)))
      case SetLen(size) => Local(s.disk, Some(h.(image := Resize(h.image, size), dirty := true)))
      case Sync(ioOk, nonces) =>
        if !h.dirty then s
        else if !Buildable(h, codec, nonces) then Local(s.disk, None)
        else if ioOk then Local(Saved(s.disk, h, codec, nonces), Some(h.(dirty := false)))
        else s
      case Close(ioOk, nonces) => Local(if ioOk then Saved(s.disk, h, codec, nonces) else s.disk, None)
      case Crash(renamed, nonces) => Local(if renamed then Saved(s.disk, h, codec, nonces) else s.disk, None)
  }

  ghost function Run(s: Local, codec: PageCodec, ops: seq<Op>): Local {
    if ops == [] then s else Step(Run(s, codec, ops[..|ops| - 1]), codec, ops[|ops| - 1])
  }

  // ---------- the plain file ----------

  datatype Edit = Put(buf: seq<Byte>, offset: nat) | Cut(size: nat)

  function SizeAfter(base: nat, edits: seq<Edit>): nat {
    if edits == [] then base
    else match edits[|edits| - 1]
      case Put(buf, offset) =>
        var before := SizeAfter(base, edits[..|edits| - 1]);
        if before < offset + |buf| then offset + |buf| else before
      case Cut(size) => size
  }

  /** The byte at `i`: the last write that covers it, unless a later cut dropped it; zero by default. */
  function ByteAfter(base: seq<Byte>, edits: seq<Edit>, i: nat): Byte {
    if edits == [] then if i < |base| then base[i] else 0
    else match edits[|edits| - 1]
      case Put(buf, offset) =>
        if offset <= i < offset + |buf| then buf[i - offset] else ByteAfter(base, edits[..|edits| - 1], i)
      case Cut(size) => if i >= size then 0 else ByteAfter(base, edits[..|edits| - 1], i)
  }

  function Content(base: seq<Byte>, edits: seq<Edit>): (r: seq<Byte>)
    ensures |r| == SizeAfter(|base|, edits)
  {
    seq(SizeAfter(|base|, edits), i requires i >= 0 => ByteAfter(base, edits, i))
  }

  /** An open plain file: what it held when opened, the edits since, and how many of them were saved. */
  datatype Live = Live(base: seq<Byte>, edits: seq<Edit>, saved: nat, pageSize: nat) {
    function Bytes(): seq<Byte> { Content(base, edits) }
    predicate Unsaved() { saved < |edits| }
  }

  /** The last completed save. */
  datatype Durable = Nothing | Image(bytes: seq<Byte>, pageSize: nat)

  datatype Plain = Plain(durable: Durable, live: Option<Live>)

  function PlainSaved(d: Durable, l: Live): Durable {
    if l.Unsaved() then Image(l.Bytes(), l.pageSize) else d
  }

  ghost predicate PlainBuildable(l: Live, codec: PageCodec, nonces: nat -> seq<Byte>) {
    Buildable(Handle(l.Bytes(), true, l.pageSize), codec, nonces)
  }

  /** The plain file's operations: no pages, no codec, no dirty flag; only whole pages can be reopened. */
  ghost function PlainStep(s: Plain, codec: PageCodec, op: Op): Plain {
    match s.live
    case None =>
      if op.Open? then
        match s.durable
        case Nothing => Plain(s.durable, Some(Live([], [], 0, op.pageSize)))
        case Image(bytes, size) =>
          if size > 0 && |bytes| % size == 0 then Plain(s.durable, Some(Live(bytes, [], 0, size))) else s
      else s
    case Some(l) =>
      match op
      case Open(_) => s
      case Write(buf, offset) => Plain(s.durable, Some(l.(edits := l.edits + [Put(buf, offset)])))
      case SetLen(size) => Plain(s.durable, Some(l.(edits := l.edits + [Cut(size)])))
      case Sync(ioOk, nonces) =>
        if !l.Unsaved() then s
        else if !PlainBuildable(l, codec, nonces) then Plain(s.durable, None)
        else if ioOk then Plain(PlainSaved(s.durable, l), Some(l.(saved := |l.edits|)))
        else s
      case Close(ioOk, nonces) =>
        Plain(if ioOk && PlainBuildable(l, codec, nonces) then PlainSaved(s.durable, l) else s.durable, None)
      case Crash(renamed, nonces) =>
        Plain(if renamed && PlainBuildable(l, codec, nonces) then PlainSaved(s.durable, l) else s.durable, None)
  }

  ghost function PlainRun(s: Plain, codec: PageCodec, ops: seq<Op>): Plain {
    if ops == [] then s else PlainStep(PlainRun(s, codec, ops[..|ops| - 1]), codec, ops[|ops| - 1])
  }

  // ---------- refinement ----------

  /** The disk holds a persisted encoding of the last completed save, under some nonces. */
  ghost predicate Stores(disk: Option<seq<Byte>>, d: Durable, codec: PageCodec) {
    match d
    case Nothing => disk.None? || disk.value == []
    case Image(bytes, size) =>
      && LegalPageSize(size)
      && exists nonces: nat -> seq<Byte> ::
           && disk == Some(FileBytes(bytes, size, codec, nonces))
           && |FileBytes(bytes, size, codec, nonces)| <= MAX_VEC_LEN
  }

  ghost predicate Shows(h: Handle, l: Live, d: Durable) {
    && LegalPageSize(h.pageSize) && h.pageSize == l.pageSize
    && h.image == l.Bytes()
    && l.saved <= |l.edits|
    && (h.dirty <==> l.Unsaved())
    && (!h.dirty ==> if d.Nothing? then h.image == [] else d == Image(h.image, h.pageSize))
  }

  ghost predicate Refines(s: Local, p: Plain, codec: PageCodec) {
    && Stores(s.disk, p.durable, codec)
    && (s.handle.Some? <==> p.live.Some?)
    && (s.handle.Some? ==> Shows(s.handle.value, p.live.value, p.durable))
  }

  lemma WriteIsPut(image: seq<Byte>, base: seq<Byte>, edits: seq<Edit>, buf: seq<Byte>, offset: nat)
    requires image == Content(base, edits)
    ensures ImageWrite(image, buf, offset) == Content(base, edits + [Put(buf, offset)])
  {
    var after := edits + [Put(buf, offset)];
    assert after[..|edits|] == edits;
    var r := ImageWrite(image, buf, offset);
    forall i: nat | i < |r|
      ensures r[i] == ByteAfter(base, after, i)
    {
      if |image| <= i && !(offset <= i < offset + |buf|) {
        BeyondEndIsZero(base, edits, i);
      }
    }
  }

  lemma ResizeIsCut(image: seq<Byte>, base: seq<Byte>, edits: seq<Edit>, size: nat)
    requires image == Content(base, edits)
    ensures Resize(image, size) == Content(base, edits + [Cut(size)])
  {
    var after := edits + [Cut(size)];
    assert after[..|edits|] == edits;
    forall i: nat | i < size
      ensures Resize(image, size)[i] == ByteAfter(base, after, i)
    {
      if |image| <= i {
        BeyondEndIsZero(base, edits, i);
      }
    }
  }

  /** No byte past the end survives a cut. */
  lemma {:induction false} BeyondEndIsZero(base: seq<Byte>, edits: seq<Edit>, i: nat)
    requires i >= SizeAfter(|base|, edits)
    ensures ByteAfter(base, edits, i) == 0
  {
    if edits != [] && edits[|edits| - 1].Put? {
      BeyondEndIsZero(base, edits[..|edits| - 1], i);
    }
  }

  lemma NoEdits(base: seq<Byte>)
    ensures Content(base, []) == base
  {
  }

  lemma StoredSizeIsLegal(disk: Option<seq<Byte>>, d: Durable, codec: PageCodec)
    requires d.Image? && Stores(disk, d, codec)
    ensures LegalPageSize(d.pageSize)
  {
  }

  lemma OpenRefines(s: Local, p: Plain, codec: PageCodec, pageSize: nat)
    requires codec.Lawful() && Refines(s, p, codec) && s.handle.None? && LegalPageSize(pageSize)
    ensures Refines(Step(s, codec, Open(pageSize)), PlainStep(p, codec, Open(pageSize)), codec)
  {
    hide PageCodec.Lawful, OpenDisk, Stores, Content;
    DiskReopens(s.disk, p.durable, codec, pageSize);
    NoEdits([]);
    if p.durable.Image? {
      StoredSizeIsLegal(s.disk, p.durable, codec);
      NoEdits(p.durable.bytes);
    }
  }

  predicate LegalOp(op: Op) { op.Open? ==> LegalPageSize(op.pageSize) }

  /** Every operation of the handle is the same operation of the plain file. */
  lemma StepRefines(s: Local, p: Plain, codec: PageCodec, op: Op)
    requires codec.Lawful() && Refines(s, p, codec) && LegalOp(op)
    ensures Refines(Step(s, codec, op), PlainStep(p, codec, op), codec)
  {
    hide PageCodec.Lawful, DecodeFile, FileBytes, ImageWrite, Resize;
    if s.handle.None? {
      if op.Open? {
        OpenRefines(s, p, codec, op.pageSize);
      }
    } else {
      var l := p.live.value;
      match op {
        case Write(buf, offset) => WriteIsPut(s.handle.value.image, l.base, l.edits, buf, offset);
        case SetLen(size) => ResizeIsCut(s.handle.value.image, l.base, l.edits, size);
        case Open(_) =>
        case Sync(_, _) =>
        case Close(_, _) =>
        case Crash(_, _) =>
      }
    }
  }

  ghost predicate Fresh(s: Local) { s.handle.None? && (s.disk.None? || s.disk.value == []) }

  lemma {:induction false} EveryRunRefines(s: Local, codec: PageCodec, ops: seq<Op>)
    requires codec.Lawful() && Fresh(s) && forall op <- ops :: LegalOp(op)
    ensures Refines(Run(s, codec, ops), PlainRun(Plain(Nothing, None), codec, ops), codec)
  {
    if ops != [] {
      var init, last := ops[..|ops| - 1], ops[|ops| - 1];
      EveryRunRefines(s, codec, init);
      StepRefines(Run(s, codec, init), PlainRun(Plain(Nothing, None), codec, init), codec, last);
    }
  }

  // ---------- the theorems ----------

  /** After any run, the live image is the plain file, byte for byte. */
  lemma {:induction false} LiveImageIsPlainFile(s: Local, codec: PageCodec, ops: seq<Op>)
    requires codec.Lawful() && Fresh(s) && forall op <- ops :: LegalOp(op)
    requires Run(s, codec, ops).handle.Some?
    ensures var p := PlainRun(Plain(Nothing, None), codec, ops);
            var image := Run(s, codec, ops).handle.value.image;
            && p.live.Some?
            && |image| == SizeAfter(|p.live.value.base|, p.live.value.edits)
            && forall i: nat :: i < |image| ==> image[i] == ByteAfter(p.live.value.base, p.live.value.edits, i)
  {
    EveryRunRefines(s, codec, ops);
  }

  /** A clean handle's image is on disk: reopening the disk gives it back exactly when it is whole pages. */
  lemma {:induction false} CleanMeansSaved(s: Local, codec: PageCodec, ops: seq<Op>, pageSize: nat)
    requires codec.Lawful() && Fresh(s) && forall op <- ops :: LegalOp(op)
    requires Run(s, codec, ops).handle.Some? && !Run(s, codec, ops).handle.value.dirty
    ensures var r := Run(s, codec, ops);
            var h := r.handle.value;
            OpenDisk(r.disk, codec, if h.image == [] then h.pageSize else pageSize) ==
            if h.pageSize > 0 && |h.image| % h.pageSize == 0 then Ok(h) else Err
  {
    EveryRunRefines(s, codec, ops);
    var r, p := Run(s, codec, ops), PlainRun(Plain(Nothing, None), codec, ops);
    DiskReopens(r.disk, p.durable, codec, if r.handle.value.image == [] then r.handle.value.pageSize else pageSize);
  }

  /** What a stored disk opens to. */
  lemma DiskReopens(disk: Option<seq<Byte>>, d: Durable, codec: PageCodec, pageSize: nat)
    requires codec.Lawful() && Stores(disk, d, codec)
    ensures OpenDisk(disk, codec, pageSize) ==
            match d
            case Nothing => Ok(Handle([], false, pageSize))
            case Image(bytes, size) => if size > 0 && |bytes| % size == 0 then Ok(Handle(bytes, false, size)) else Err
  {
    hide PageCodec.Lawful, DecodeFile;
    if d.Image? {
      var nonces: nat -> seq<Byte> :| disk == Some(FileBytes(d.bytes, d.pageSize, codec, nonces))
                                      && |FileBytes(d.bytes, d.pageSize, codec, nonces)| <= MAX_VEC_LEN;
      PersistedFileRoundTrip(d.bytes, d.pageSize, codec, nonces);
    }
  }

  /**
   Crash at any point of any run, then reopen: the image is that of the last completed save, or
   the open is refused because that image was not a whole number of pages.
   */
  lemma {:induction false} ReopenAfterCrash(s: Local, codec: PageCodec, ops: seq<Op>, crash: Op, pageSize: nat)
    requires codec.Lawful() && Fresh(s) && (forall op <- ops :: LegalOp(op)) && crash.Crash? && LegalPageSize(pageSize)
    ensures var r := Run(s, codec, ops + [crash, Open(pageSize)]);
            match PlainRun(Plain(Nothing, None), codec, ops + [crash]).durable
            case Nothing => r.handle == Some(Handle([], false, pageSize))
            case Image(bytes, size) =>
              if size > 0 && |bytes| % size == 0 then r.handle == Some(Handle(bytes, false, size)) else r.handle.None?
  {
    var before, all := ops + [crash], ops + [crash, Open(pageSize)];
    assert all[..|all| - 1] == before && before[..|before| - 1] == ops;
    EveryRunRefines(s, codec, before);
    var r, p := Run(s, codec, before), PlainRun(Plain(Nothing, None), codec, before);
    assert r.handle.None?;
    DiskReopens(r.disk, p.durable, codec, pageSize);
  }

  // ---------- an image that cannot be reopened ----------

  /** A codec that stores pages as they are. */
  const RAW := PageCodec(false, Zstd((x: seq<Byte>) => x, (x: seq<Byte>, cap: nat) => Some(x)), None)

  /**
   A handle of the default page size gets one page of a database whose own pages have 512 bytes
   (src/local/mod.rs:66-75, 490-522). The sync succeeds and leaves the handle clean, and the file it
   wrote is refused by every later open.
   */
  lemma SmallPageIsLost(nonces: nat -> seq<Byte>, pageSize: nat)
    ensures RAW.Lawful()
    ensures var r := Run(Local(None, None), RAW, [Open(4096), Write(Zeros(512), 0), Sync(true, nonces)]);
            && r.handle == Some(Handle(Zeros(512), false, 4096))
            && OpenDisk(r.disk, RAW, pageSize).Err?
  {
    hide DecodeFile, FileBytes;
    var ops := [Open(4096), Write(Zeros(512), 0), Sync(true, nonces)];
    assert ops[..2] == [Open(4096), Write(Zeros(512), 0)] && ops[..2][..1] == [Open(4096)] && ops[..2][..1][..0] == [];
    var begun := Local(None, Some(Handle([], false, 4096)));
    assert Run(Local(None, None), RAW, ops[..2][..1]) == begun;
    assert ImageWrite([], Zeros(512), 0) == Zeros(512);
    var written := Handle(Zeros(512), true, 4096);
    assert Run(Local(None, None), RAW, ops[..2]) == Local(None, Some(written));
    SmallFileIsBuilt(nonces);
    PersistedFileRoundTrip(Zeros(512), 4096, RAW, nonces);
  }

  lemma SmallFileIsBuilt(nonces: nat -> seq<Byte>)
    ensures 0 < |FileBytes(Zeros(512), 4096, RAW, nonces)| <= MAX_VEC_LEN
  {
    var image := Zeros(512);
    hide Chunks, Blobs, Flatten, Extents, PageCodec.EncodePage;
    FirstBlob(image, 4096, image, [], RAW, nonces, 0, HEADER_LEN);
    NoBlobs(4096, RAW, nonces, 1, HEADER_LEN + |RAW.EncodePage(image, nonces(0))|);
    assert RAW.Lawful();
    RAW.PageRoundTrip(image, nonces(0), 4096);
  }

  // ---------- the handle as an object ----------

  /** The file at the database path; replaced only by an atomic rename. */
  class Disk {
    var file: Option<seq<Byte>>

    constructor ()
      ensures file == None
    {
      file := None;
    }
  }

  datatype PersistResult = Saved | Failed | Died

  class MainHandle {
    const disk: Disk
    const codec: PageCodec
    var pageSize: nat
    var image: seq<Byte>
    var dirty: bool

    ghost function State(): Local
      reads this, disk
    {
      Local(disk.file, Some(Handle(image, dirty, pageSize)))
    }

    constructor (disk: Disk, codec: PageCodec, h: Handle)
      ensures this.disk == disk && this.codec == codec
      ensures image == h.image && dirty == h.dirty && pageSize == h.pageSize
    {
      this.disk, this.codec, image, dirty, pageSize := disk, codec, h.image, h.dirty, h.pageSize;
    }

    /**
     src/local/mod.rs:447-485; null stands for the error. `lockOk` says whether the sibling lock file
     was opened and locked, `readOk` whether reading an existing file succeeds.
     */
    static method Open(disk: Disk, codec: PageCodec, pageSize: nat, lockOk: bool, readOk: bool) returns (h: MainHandle?)
      requires disk.file.Some? ==> |disk.file.value| <= MAX_VEC_LEN
      ensures h == null <==> !lockOk || (disk.file.Some? && !readOk) || OpenDisk(disk.file, codec, pageSize).Err?
      ensures h != null ==> fresh(h) && h.disk == disk && h.codec == codec
      ensures h != null ==> h.State() == Step(Local(disk.file, None), codec, Op.Open(pageSize))
    {
      if !lockOk || (disk.file.Some? && !readOk) {
        return null;
      }
      if disk.file.None? || disk.file.value == [] {
        h := new MainHandle(disk, codec, Handle([], false, pageSize));
      } else {
        var decoded := DecodeLocalFile(disk.file.value, codec);
        if decoded.Err? {
          h := null;
        } else {
          h := new MainHandle(disk, codec, Handle(decoded.value.0, false, decoded.value.1));
        }
      }
    }

    /** Fills what is there; true only if the whole buffer was filled. A read at or past the end fails. */
    method ReadExactAt(buf: seq<Byte>, offset: nat) returns (out: seq<Byte>, ok: bool)
      ensures |out| == |buf|
      ensures ok <==> offset < |image| && offset + |buf| <= |image|
      ensures forall k :: 0 <= k < |buf| ==> out[k] == if offset + k < |image| then image[offset + k] else buf[k]
    {
      if offset >= |image| {
        return buf, false;
      }
      var avail := image[offset..];
      var n := if |avail| <= |buf| then |avail| else |buf|;
      out := avail[..n] + buf[n..];
      ok := n == |buf|;
    }

    method WriteAllAt(buf: seq<Byte>, offset: nat)
      modifies this
      ensures State() == Step(old(State()), codec, Op.Write(buf, offset))
    {
      var end := offset + |buf|;
      if end > |image| {
        image := Resize(image, end);
      }
      image := image[..offset] + buf + image[end..];
      dirty := true;
    }

    method SetLength(size: nat)
      modifies this
      ensures State() == Step(old(State()), codec, Op.SetLen(size))
    {
      image := Resize(image, size);
      dirty := true;
    }

    /**
     src/local/mod.rs:490-522. A failed write leaves file and dirty flag as they were. Chunks of no
     bytes, or a file longer than any byte vector, end the process before anything is written.
     */
    method Persist(ioOk: bool, nonces: nat -> seq<Byte>) returns (r: PersistResult)
      modifies this`dirty, disk
      ensures r.Died? <==> old(dirty) && !Buildable(Handle(image, true, pageSize), codec, nonces)
      ensures !r.Died? ==>
                State() == Step(old(State()), codec, Op.Sync(ioOk, nonces)) && (r.Saved? <==> !old(dirty) || ioOk)
      ensures r.Died? ==> Local(disk.file, None) == Step(old(State()), codec, Op.Sync(ioOk, nonces))
    {
      hide FileBytes, OpenDisk, ImageWrite, Resize;
      if !dirty {
        return Saved;
      }
      if pageSize == 0 {
        return Died;
      }
      var bytes := EncodeFile(image, pageSize, codec, nonces);
      if |bytes| > MAX_VEC_LEN {
        return Died;
      }
      if !ioOk {
        return Failed;
      }
      disk.file := Some(bytes);
      dirty := false;
      r := Saved;
    }

    /** `Drop`, src/local/mod.rs:525-539: unsynced edits are flushed; a failed flush is only logged. */
    method Drop(ioOk: bool, nonces: nat -> seq<Byte>)
      modifies this`dirty, disk
      ensures Local(disk.file, None) == Step(old(State()), codec, Op.Close(ioOk, nonces))
    {
      hide FileBytes, OpenDisk, ImageWrite, Resize;
      if dirty {
        var _ := Persist(ioOk, nonces);
      }
    }
  }
}
