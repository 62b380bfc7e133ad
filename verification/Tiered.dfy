/**
 Manifests over an object store (src/tiered/manifest.rs, src/tiered/bench.rs): which bytes a
 manifest gives each page. The page-group encoders and decoders are abstract.
 */
module Tiered {
  import opened Common
  import opened StoreKeys
  import opened Arithmetic

  type Page = seq<Byte>
  type Blob = seq<Byte>
  type Objects = map<Key, Blob>

  datatype FrameEntry = FrameEntry(offset: nat, len: nat)

  datatype TreeEntry = TreeEntry(name: string, groupIds: seq<nat>)

  /** The fields of the manifest used here. An absent group key is the source's empty string. */
  datatype Manifest = Manifest(
    version: nat,
    changeCounter: nat,
    pageCount: nat,
    pageSize: nat,
    pagesPerGroup: nat,
    pageGroupKeys: seq<Option<Key>>,
    interiorChunkKeys: map<nat, Key>,
    indexChunkKeys: map<nat, Key>,
    frameTables: seq<seq<FrameEntry>>,
    subPagesPerFrame: nat,
    subframeOverrides: seq<map<nat, Key>>,
    positional: bool,
    groupPages: seq<seq<nat>>,
    btrees: map<nat, TreeEntry>)

  // ---------- views; an index past the end reads as empty ----------

  function KeyAt(m: Manifest, g: nat): Option<Key> {
    if g < |m.pageGroupKeys| then m.pageGroupKeys[g] else None
  }

  function TableAt(m: Manifest, g: nat): seq<FrameEntry> {
    if g < |m.frameTables| then m.frameTables[g] else []
  }

  /** Overrides count only in seekable manifests. */
  function OverridesAt(m: Manifest, g: nat): map<nat, Key> {
    if m.subPagesPerFrame > 0 && g < |m.subframeOverrides| then m.subframeOverrides[g] else map[]
  }

  /** `group_page_nums`: listed pages, or a fixed stride when the manifest is positional. */
  function PagesAt(m: Manifest, g: nat): seq<nat> {
    if m.positional then
      var start := g * m.pagesPerGroup;
      var end := if start + m.pagesPerGroup <= m.pageCount then start + m.pagesPerGroup else m.pageCount;
      if start < end then seq(end - start, i requires i >= 0 => start + i) else []
    else if g < |m.groupPages| then m.groupPages[g]
    else []
  }

  /** Page `p` sits at position `i` of group `g`, which has an object. */
  predicate Located(m: Manifest, p: nat, g: nat, i: nat) {
    KeyAt(m, g).Some? && i < |PagesAt(m, g)| && PagesAt(m, g)[i] == p
  }

  ghost predicate Listed(m: Manifest, p: nat) {
    exists g: nat, i: nat :: Located(m, p, g, i)
  }

  /** Each page sits in one place. */
  ghost predicate UniquePages(m: Manifest) {
    forall p: nat, g: nat, i: nat, h: nat, j: nat ::
      Located(m, p, g, i) && Located(m, p, h, j) ==> g == h && i == j
  }

  // ---------- codec ----------

  /**
   Group objects, plain and seekable, and override frames. Group id and frame index are bound
   into the objects as authenticated data.
   */
  datatype Codec = Codec(
    encodeGroup: (nat, seq<Page>) -> Blob,
    decodeGroup: (nat, Blob) -> Option<seq<Byte>>,
    encodeSeekable: (nat, nat, seq<Page>) -> (Blob, seq<FrameEntry>),
    decodeSeekable: (nat, Blob, seq<FrameEntry>, nat, nat) -> Option<seq<Byte>>,
    decodeFrame: (nat, nat, Blob) -> Option<seq<Byte>>)

  function Flat(pages: seq<Page>): seq<Byte> {
    if pages == [] then [] else Flat(pages[..|pages| - 1]) + pages[|pages| - 1]
  }

  ghost predicate FullPages(pages: seq<Page>, pageSize: nat) {
    forall i :: 0 <= i < |pages| ==> |pages[i]| == pageSize
  }

  /**
   Decoders invert encoders on groups of whole pages; a seekable group is read back when it has
   no more pages than the database.
   */
  ghost predicate Lawful(codec: Codec, pageSize: nat) {
    && (forall g: nat, pages: seq<Page> :: FullPages(pages, pageSize) ==>
          codec.decodeGroup(g, codec.encodeGroup(g, pages)) == Some(Flat(pages)))
    && (forall g: nat, spf: nat, pages: seq<Page>, pageCount: nat ::
          spf > 0 && 0 < |pages| <= pageCount && FullPages(pages, pageSize) ==>
          var e := codec.encodeSeekable(g, spf, pages);
          e.1 != [] && codec.decodeSeekable(g, e.0, e.1, |pages|, pageCount) == Some(Flat(pages)))
  }

  // ---------- what a manifest says about a page ----------

  function SliceAt(bytes: seq<Byte>, i: nat, size: nat): (r: Option<Page>)
    ensures r.Some? ==> |r.value| == size
  {
    NextMultiple(i, size);
    if (i + 1) * size <= |bytes| then Some(bytes[i * size..(i + 1) * size]) else None
  }

  function ObjectAt(objects: Objects, k: Key): Option<Blob> {
    if k in objects then Some(objects[k]) else None
  }

  function BaseBytes(objects: Objects, m: Manifest, codec: Codec, g: nat): Option<seq<Byte>> {
    if KeyAt(m, g).None? then None
    else match ObjectAt(objects, KeyAt(m, g).value)
      case None => None
      case Some(blob) =>
        if m.subPagesPerFrame > 0 && TableAt(m, g) != []
        then codec.decodeSeekable(g, blob, TableAt(m, g), |PagesAt(m, g)|, m.pageCount)
        else codec.decodeGroup(g, blob)
  }

  function FrameBytes(objects: Objects, m: Manifest, codec: Codec, g: nat, f: nat): Option<seq<Byte>>
    requires f in OverridesAt(m, g)
  {
    match ObjectAt(objects, OverridesAt(m, g)[f])
    case None => None
    case Some(blob) => codec.decodeFrame(g, f, blob)
  }

  function FrameStart(m: Manifest, f: nat): nat { f * m.subPagesPerFrame }

  function FrameEnd(m: Manifest, g: nat, f: nat): nat {
    var end := FrameStart(m, f) + m.subPagesPerFrame;
    if end <= |PagesAt(m, g)| then end else |PagesAt(m, g)|
  }

  /** An override frame is present, decodes, and is long enough for the pages it covers. */
  predicate FrameOk(objects: Objects, m: Manifest, codec: Codec, g: nat, f: nat)
    requires f in OverridesAt(m, g)
  {
    var bytes := FrameBytes(objects, m, codec, g, f);
    && bytes.Some?
    && (FrameStart(m, f) < FrameEnd(m, g, f) ==> (FrameEnd(m, g, f) - FrameStart(m, f)) * m.pageSize <= |bytes.value|)
  }

  predicate GroupOk(objects: Objects, m: Manifest, codec: Codec, g: nat) {
    KeyAt(m, g).Some? ==>
      && BaseBytes(objects, m, codec, g).Some?
      && forall f <- OverridesAt(m, g).Keys :: FrameOk(objects, m, codec, g, f)
  }

  /** Every object a materialization needs is there and decodes. */
  ghost predicate Materializable(objects: Objects, m: Manifest, codec: Codec) {
    m.pageCount > 0 && m.pageSize > 0 && forall g: nat :: GroupOk(objects, m, codec, g)
  }

  /** The copy loop stops at the first page number past the page count, so position `i` must be reached from `from`. */
  ghost predicate Reached(pages: seq<nat>, from: nat, i: nat, pageCount: nat)
    requires i < |pages|
  {
    forall j :: from <= j <= i ==> pages[j] < pageCount
  }

  ghost function BaseWrite(m: Manifest, pages: seq<nat>, bytes: seq<Byte>, i: nat): Option<Page>
    requires i < |pages|
  {
    if Reached(pages, 0, i, m.pageCount) then SliceAt(bytes, i, m.pageSize) else None
  }

  /** Position `i` lies in overridden frame `f`, in reach of the frame's copy loop. */
  ghost predicate FrameWrites(m: Manifest, pages: seq<nat>, f: nat, i: nat)
    requires i < |pages|
  {
    FrameStart(m, f) <= i < FrameStart(m, f) + m.subPagesPerFrame && Reached(pages, FrameStart(m, f), i, m.pageCount)
  }

  function FrameIndex(m: Manifest, i: nat): nat {
    if m.subPagesPerFrame == 0 then 0 else i / m.subPagesPerFrame
  }

  /** What position `i` of group `g` contributes: its override frame's page, else the base page, else nothing. */
  ghost function SlotWrite(objects: Objects, m: Manifest, codec: Codec, g: nat, i: nat): Option<Page>
    requires GroupOk(objects, m, codec, g) && KeyAt(m, g).Some? && i < |PagesAt(m, g)|
  {
    var f := FrameIndex(m, i);
    if f in OverridesAt(m, g) && FrameWrites(m, PagesAt(m, g), f, i)
    then SliceAt(FrameBytes(objects, m, codec, g, f).value, i - FrameStart(m, f), m.pageSize)
    else BaseWrite(m, PagesAt(m, g), BaseBytes(objects, m, codec, g).value, i)
  }

  /** The page that the override frame of position `j` has for it. */
  ghost function FramePage(objects: Objects, m: Manifest, codec: Codec, g: nat, j: nat): Option<Page>
    requires FrameIndex(m, j) in OverridesAt(m, g)
  {
    var bytes, start := FrameBytes(objects, m, codec, g, FrameIndex(m, j)), FrameStart(m, FrameIndex(m, j));
    if bytes.Some? && start <= j then SliceAt(bytes.value, j - start, m.pageSize) else None
  }

  /** The page that the base object of group `g` has for position `j`. */
  ghost function BasePage(objects: Objects, m: Manifest, codec: Codec, g: nat, j: nat): Option<Page> {
    var bytes := BaseBytes(objects, m, codec, g);
    if bytes.Some? then SliceAt(bytes.value, j, m.pageSize) else None
  }

  function OrZeros(r: Option<Page>, size: nat): Page {
    if r.Some? then r.value else Zeros(size)
  }

  /** The bytes of page `p` in the materialized database. */
  ghost function PageContent(objects: Objects, m: Manifest, codec: Codec, p: nat): Page
    requires Materializable(objects, m, codec)
  {
    if Listed(m, p) then
      var g: nat, i: nat :| Located(m, p, g, i);
      OrZeros(SlotWrite(objects, m, codec, g, i), m.pageSize)
    else Zeros(m.pageSize)
  }

  lemma ContentAt(objects: Objects, m: Manifest, codec: Codec, p: nat, g: nat, i: nat)
    requires Materializable(objects, m, codec) && UniquePages(m) && Located(m, p, g, i)
    ensures PageContent(objects, m, codec, p) == OrZeros(SlotWrite(objects, m, codec, g, i), m.pageSize)
  {
  }

  /** All that group `g` contributes from is the same for both manifests. */
  ghost predicate SameInputs(objects: Objects, m: Manifest, objects': Objects, m': Manifest, codec: Codec, g: nat) {
    && m'.pageCount == m.pageCount && m'.pageSize == m.pageSize && m'.subPagesPerFrame == m.subPagesPerFrame
    && KeyAt(m', g) == KeyAt(m, g) && PagesAt(m', g) == PagesAt(m, g) && OverridesAt(m', g) == OverridesAt(m, g)
    && BaseBytes(objects', m', codec, g) == BaseBytes(objects, m, codec, g)
    && forall f <- OverridesAt(m, g).Keys ::
         FrameBytes(objects', m', codec, g, f) == FrameBytes(objects, m, codec, g, f)
  }

  lemma SameInputsOk(objects: Objects, m: Manifest, objects': Objects, m': Manifest, codec: Codec, g: nat)
    requires SameInputs(objects, m, objects', m', codec, g) && GroupOk(objects, m, codec, g)
    ensures GroupOk(objects', m', codec, g)
  {
    hide KeyAt, PagesAt, OverridesAt, BaseBytes, FrameBytes;
    forall f <- OverridesAt(m, g).Keys
      ensures FrameOk(objects', m', codec, g, f) <==> FrameOk(objects, m, codec, g, f)
    {
    }
  }

  lemma SameInputsSlot(objects: Objects, m: Manifest, objects': Objects, m': Manifest, codec: Codec, g: nat, i: nat)
    requires SameInputs(objects, m, objects', m', codec, g) && GroupOk(objects, m, codec, g)
    requires GroupOk(objects', m', codec, g) && KeyAt(m, g).Some? && i < |PagesAt(m, g)|
    ensures SlotWrite(objects', m', codec, g, i) == SlotWrite(objects, m, codec, g, i)
  {
    hide KeyAt, PagesAt, OverridesAt, BaseBytes, FrameBytes, SliceAt;
  }

  /** A group with the same inputs contributes the same pages. */
  lemma SameContribution(objects: Objects, m: Manifest, objects': Objects, m': Manifest, codec: Codec, g: nat)
    requires SameInputs(objects, m, objects', m', codec, g) && GroupOk(objects, m, codec, g)
    ensures GroupOk(objects', m', codec, g)
    ensures KeyAt(m, g).Some? ==> forall i :: 0 <= i < |PagesAt(m, g)| ==>
              SlotWrite(objects', m', codec, g, i) == SlotWrite(objects, m, codec, g, i)
  {
    hide GroupOk, PagesAt, SlotWrite, BaseBytes, FrameBytes, OverridesAt;
    SameInputsOk(objects, m, objects', m', codec, g);
    if KeyAt(m, g).Some? {
      forall i | 0 <= i < |PagesAt(m, g)|
        ensures SlotWrite(objects', m', codec, g, i) == SlotWrite(objects, m, codec, g, i)
      {
        SameInputsSlot(objects, m, objects', m', codec, g, i);
      }
    }
  }

  // ---------- references ----------

  /** Every key the manifest names, as `gc` collects them (overrides whatever the frame size). */
  ghost predicate References(m: Manifest, k: Key) {
    || (exists g: nat :: KeyAt(m, g) == Some(k))
    || k in m.interiorChunkKeys.Values
    || k in m.indexChunkKeys.Values
    || (exists g: nat :: g < |m.subframeOverrides| && k in m.subframeOverrides[g].Values)
  }

  ghost predicate AllPresent(objects: Objects, m: Manifest) {
    forall k: Key :: References(m, k) ==> k in objects
  }

  /** Objects agree on every key the manifest names. */
  ghost predicate SameObjects(objects: Objects, objects': Objects, m: Manifest) {
    forall k: Key :: References(m, k) ==> ObjectAt(objects, k) == ObjectAt(objects', k)
  }

  /** What a manifest materializes to depends only on the objects it names. */
  lemma ContentDependsOnReferences(objects: Objects, objects': Objects, m: Manifest, codec: Codec)
    requires SameObjects(objects, objects', m)
    ensures Materializable(objects, m, codec) <==> Materializable(objects', m, codec)
    ensures Materializable(objects, m, codec) ==>
              forall p: nat :: PageContent(objects', m, codec, p) == PageContent(objects, m, codec, p)
  {
    forall g: nat
      ensures BaseBytes(objects', m, codec, g) == BaseBytes(objects, m, codec, g)
      ensures forall f <- OverridesAt(m, g).Keys ::
                FrameBytes(objects', m, codec, g, f) == FrameBytes(objects, m, codec, g, f)
      ensures GroupOk(objects', m, codec, g) <==> GroupOk(objects, m, codec, g)
    {
      SameGroup(objects, objects', m, codec, g);
    }
    if Materializable(objects, m, codec) {
      forall p: nat
        ensures PageContent(objects', m, codec, p) == PageContent(objects, m, codec, p)
      {
        if Listed(m, p) {
          forall g: nat, i: nat | Located(m, p, g, i)
            ensures SlotWrite(objects', m, codec, g, i) == SlotWrite(objects, m, codec, g, i)
          {
          }
        }
      }
    }
  }

  lemma SameGroup(objects: Objects, objects': Objects, m: Manifest, codec: Codec, g: nat)
    requires SameObjects(objects, objects', m)
    ensures BaseBytes(objects', m, codec, g) == BaseBytes(objects, m, codec, g)
    ensures forall f <- OverridesAt(m, g).Keys ::
              FrameBytes(objects', m, codec, g, f) == FrameBytes(objects, m, codec, g, f)
    ensures GroupOk(objects', m, codec, g) <==> GroupOk(objects, m, codec, g)
  {
    if KeyAt(m, g).Some? {
      assert References(m, KeyAt(m, g).value);
    }
    forall f <- OverridesAt(m, g).Keys
      ensures FrameBytes(objects', m, codec, g, f) == FrameBytes(objects, m, codec, g, f)
    {
      assert OverridesAt(m, g)[f] in m.subframeOverrides[g].Values;
      assert References(m, OverridesAt(m, g)[f]);
    }
  }
}
