/**
 `materialize_manifest_to_file` (src/tiered/bench.rs:752-950): all page writes are staged in
 memory first; the output file is touched only when every object was found and decoded.
 */
module Materialize {
  import opened Common
  import opened Tiered
  import opened Arithmetic
  import opened Graphs
  import opened PageMap

  /** A staged write; the file offset is `page * page_size`. */
  datatype Staged = Staged(page: nat, bytes: Page)

  function LastWrite(staged: seq<Staged>, p: nat): Option<Page> {
    if staged == [] then None
    else
      var last := staged[|staged| - 1];
      if last.page == p then Some(last.bytes) else LastWrite(staged[..|staged| - 1], p)
  }

  ghost predicate InRange(staged: seq<Staged>, pageCount: nat, pageSize: nat) {
    forall i :: 0 <= i < |staged| ==> staged[i].page < pageCount && |staged[i].bytes| == pageSize
  }

  lemma {:induction false} LastWriteAppend(staged: seq<Staged>, w: Staged, p: nat)
    ensures LastWrite(staged + [w], p) == if w.page == p then Some(w.bytes) else LastWrite(staged, p)
  {
    assert (staged + [w])[..|staged|] == staged;
  }

  function OrElse(a: Option<Page>, b: Option<Page>): Option<Page> { if a.Some? then a else b }

  /** In an ascending page list the early stop skips exactly the pages past the page count. */
  lemma AscendingReachesAll(pages: seq<nat>, from: nat, i: nat, pageCount: nat)
    requires Ascending(pages) && from <= i < |pages|
    ensures Reached(pages, from, i, pageCount) <==> pages[i] < pageCount
  {
  }

  /** The base pages of one group, src/tiered/bench.rs:850-860. */
  method StageBase(m: Manifest, pages: seq<nat>, bytes: seq<Byte>, staged0: seq<Staged>) returns (staged: seq<Staged>)
    requires InRange(staged0, m.pageCount, m.pageSize)
    ensures InRange(staged, m.pageCount, m.pageSize)
    ensures forall p: nat :: p !in pages ==> LastWrite(staged, p) == LastWrite(staged0, p)
    ensures Distinct(pages) ==> forall i :: 0 <= i < |pages| ==>
              LastWrite(staged, pages[i]) == OrElse(BaseWrite(m, pages, bytes, i), LastWrite(staged0, pages[i]))
  {
    hide LastWrite;
    staged := staged0;
    var i := 0;
    while i < |pages|
      invariant 0 <= i <= |pages| && InRange(staged, m.pageCount, m.pageSize)
      invariant forall j :: 0 <= j < i ==> pages[j] < m.pageCount
      invariant forall p: nat :: p !in pages[..i] ==> LastWrite(staged, p) == LastWrite(staged0, p)
      invariant Distinct(pages) ==> forall j :: 0 <= j < i ==>
                  LastWrite(staged, pages[j]) == OrElse(BaseWrite(m, pages, bytes, j), LastWrite(staged0, pages[j]))
    {
      if pages[i] >= m.pageCount {
        break;
      }
      assert pages[..i + 1] == pages[..i] + [pages[i]];
      NextMultiple(i, m.pageSize);
      var start := i * m.pageSize;
      var end := start + m.pageSize;
      if end <= |bytes| {
        ghost var before := staged;
        staged := staged + [Staged(pages[i], bytes[start..end])];
        forall p: nat
          ensures LastWrite(staged, p) == if p == pages[i] then Some(bytes[start..end]) else LastWrite(before, p)
        {
          LastWriteAppend(before, Staged(pages[i], bytes[start..end]), p);
        }
      }
      i := i + 1;
    }
  }

  /** Enough bytes for `n` pages hold each of them. */
  lemma SliceInBounds(bytes: seq<Byte>, i: nat, n: nat, size: nat)
    requires i < n && n * size <= |bytes|
    ensures i * size + size <= |bytes| && SliceAt(bytes, i, size) == Some(bytes[i * size..i * size + size])
  {
    NextMultiple(i, size);
    MulMonotone(i + 1, n, size);
  }

  /** The pages of one override frame, src/tiered/bench.rs:911-921. */
  method StageFrame(m: Manifest, pages: seq<nat>, lo: nat, hi: nat, bytes: seq<Byte>, staged0: seq<Staged>)
    returns (staged: seq<Staged>)
    requires InRange(staged0, m.pageCount, m.pageSize)
    requires lo <= hi <= |pages| && (hi - lo) * m.pageSize <= |bytes|
    ensures InRange(staged, m.pageCount, m.pageSize)
    ensures forall p: nat :: p !in pages ==> LastWrite(staged, p) == LastWrite(staged0, p)
    ensures Distinct(pages) ==> forall i :: 0 <= i < |pages| ==>
              LastWrite(staged, pages[i]) ==
              if lo <= i < hi && Reached(pages, lo, i, m.pageCount) then SliceAt(bytes, i - lo, m.pageSize)
              else LastWrite(staged0, pages[i])
  {
    hide LastWrite, SliceAt;
    staged := staged0;
    var k := lo;
    while k < hi
      invariant lo <= k <= hi && InRange(staged, m.pageCount, m.pageSize)
      invariant forall j :: lo <= j < k ==> pages[j] < m.pageCount
      invariant forall p: nat :: p !in pages ==> LastWrite(staged, p) == LastWrite(staged0, p)
      invariant Distinct(pages) ==> forall i :: 0 <= i < |pages| ==>
                  LastWrite(staged, pages[i]) ==
                  if lo <= i < k then SliceAt(bytes, i - lo, m.pageSize) else LastWrite(staged0, pages[i])
    {
      if pages[k] >= m.pageCount {
        break;
      }
      SliceInBounds(bytes, k - lo, hi - lo, m.pageSize);
      var start := (k - lo) * m.pageSize;
      var slice := bytes[start..start + m.pageSize];
      ghost var before := staged;
      staged := staged + [Staged(pages[k], slice)];
      forall p: nat
        ensures LastWrite(staged, p) == if p == pages[k] then Some(slice) else LastWrite(before, p)
      {
        LastWriteAppend(before, Staged(pages[k], slice), p);
      }
      k := k + 1;
    }
  }

  /** What the overrides handled so far make of position `i`. */
  ghost function FrameWrite(objects: Objects, m: Manifest, codec: Codec, g: nat, handled: set<nat>,
                            i: nat): Option<Page>
    requires i < |PagesAt(m, g)| && handled <= OverridesAt(m, g).Keys
    requires forall f <- handled :: FrameOk(objects, m, codec, g, f)
  {
    var f := FrameIndex(m, i);
    if f in handled && FrameWrites(m, PagesAt(m, g), f, i)
    then
      assert FrameOk(objects, m, codec, g, f);
      SliceAt(FrameBytes(objects, m, codec, g, f).value, i - FrameStart(m, f), m.pageSize)
    else None
  }

  /** A good frame has a full page for each position it covers. */
  lemma FrameCovers(objects: Objects, m: Manifest, codec: Codec, g: nat, f: nat, i: nat)
    requires f in OverridesAt(m, g) && FrameOk(objects, m, codec, g, f)
    requires FrameStart(m, f) <= i < FrameEnd(m, g, f)
    ensures SliceAt(FrameBytes(objects, m, codec, g, f).value, i - FrameStart(m, f), m.pageSize).Some?
  {
    MulMonotone(i - FrameStart(m, f) + 1, FrameEnd(m, g, f) - FrameStart(m, f), m.pageSize);
  }

  ghost predicate OverridesStaged(objects: Objects, m: Manifest, codec: Codec, g: nat, handled: set<nat>,
                                  staged0: seq<Staged>, staged: seq<Staged>)
    requires handled <= OverridesAt(m, g).Keys && forall f <- handled :: FrameOk(objects, m, codec, g, f)
  {
    var pages := PagesAt(m, g);
    && InRange(staged, m.pageCount, m.pageSize)
    && (forall p: nat :: p !in pages ==> LastWrite(staged, p) == LastWrite(staged0, p))
    && (Distinct(pages) ==> forall i :: 0 <= i < |pages| ==>
          LastWrite(staged, pages[i]) ==
            OrElse(FrameWrite(objects, m, codec, g, handled, i), LastWrite(staged0, pages[i])))
  }

  lemma OneMoreFrame(objects: Objects, m: Manifest, codec: Codec, g: nat, handled: set<nat>, f: nat, i: nat)
    requires i < |PagesAt(m, g)| && handled <= OverridesAt(m, g).Keys && f in OverridesAt(m, g) && f !in handled
    requires (forall h <- handled :: FrameOk(objects, m, codec, g, h)) && FrameOk(objects, m, codec, g, f)
    ensures var pages := PagesAt(m, g);
            FrameWrite(objects, m, codec, g, handled + {f}, i) ==
            if FrameStart(m, f) <= i < FrameEnd(m, g, f) && Reached(pages, FrameStart(m, f), i, m.pageCount)
            then SliceAt(FrameBytes(objects, m, codec, g, f).value, i - FrameStart(m, f), m.pageSize)
            else FrameWrite(objects, m, codec, g, handled, i)
    ensures FrameStart(m, f) <= i < FrameEnd(m, g, f) && Reached(PagesAt(m, g), FrameStart(m, f), i, m.pageCount)
            ==> FrameWrite(objects, m, codec, g, handled + {f}, i).Some?
  {
    FrameOf(i, m.subPagesPerFrame, f);
    if FrameStart(m, f) <= i < FrameEnd(m, g, f) {
      FrameCovers(objects, m, codec, g, f, i);
    }
  }

  /** The overrides of one group, in whatever order the map yields them, src/tiered/bench.rs:863-923. */
  method StageOverrides(objects: Objects, m: Manifest, codec: Codec, g: nat, staged0: seq<Staged>)
    returns (r: Result<seq<Staged>>)
    requires InRange(staged0, m.pageCount, m.pageSize)
    ensures r.Ok? <==> forall f <- OverridesAt(m, g).Keys :: FrameOk(objects, m, codec, g, f)
    ensures r.Ok? ==> OverridesStaged(objects, m, codec, g, OverridesAt(m, g).Keys, staged0, r.value)
  {
    var staged := staged0;
    var pages, overrides, spf := PagesAt(m, g), OverridesAt(m, g), m.subPagesPerFrame;
    var todo := overrides.Keys;
    while todo != {}
      invariant todo <= overrides.Keys
      invariant forall f <- overrides.Keys - todo :: FrameOk(objects, m, codec, g, f)
      invariant OverridesStaged(objects, m, codec, g, overrides.Keys - todo, staged0, staged)
      decreases todo
    {
      var f :| f in todo;
      ghost var handled := overrides.Keys - todo;
      var data := ObjectAt(objects, overrides[f]);
      if data.None? {
        return Err;
      }
      var bytes := codec.decodeFrame(g, f, data.value);
      if bytes.None? {
        return Err;
      }
      var lo := f * spf;
      var hi := if lo + spf <= |pages| then lo + spf else |pages|;
      if lo < hi && (hi - lo) * m.pageSize > |bytes.value| {
        assert !FrameOk(objects, m, codec, g, f);
        return Err;
      }
      assert FrameOk(objects, m, codec, g, f);
      ghost var before := staged;
      if lo < hi {
        staged := StageFrame(m, pages, lo, hi, bytes.value, staged);
      }
      todo := todo - {f};
      assert overrides.Keys - todo == handled + {f};
      forall i | 0 <= i < |pages| && Distinct(pages)
        ensures LastWrite(staged, pages[i]) ==
                OrElse(FrameWrite(objects, m, codec, g, handled + {f}, i), LastWrite(staged0, pages[i]))
      {
        OneMoreFrame(objects, m, codec, g, handled, f, i);
      }
    }
    assert overrides.Keys - todo == overrides.Keys;
    r := Ok(staged);
  }

  ghost predicate GroupStaged(objects: Objects, m: Manifest, codec: Codec, g: nat, staged0: seq<Staged>,
                              staged: seq<Staged>)
    requires GroupOk(objects, m, codec, g) && KeyAt(m, g).Some?
  {
    var pages := PagesAt(m, g);
    && InRange(staged, m.pageCount, m.pageSize)
    && (forall p: nat :: p !in pages ==> LastWrite(staged, p) == LastWrite(staged0, p))
    && (Distinct(pages) ==> forall i :: 0 <= i < |pages| ==>
          LastWrite(staged, pages[i]) == OrElse(SlotWrite(objects, m, codec, g, i), LastWrite(staged0, pages[i])))
  }

  /** One group with a key, src/tiered/bench.rs:801-924. */
  method StageGroup(objects: Objects, m: Manifest, codec: Codec, g: nat, staged0: seq<Staged>)
    returns (r: Result<seq<Staged>>)
    requires KeyAt(m, g).Some? && InRange(staged0, m.pageCount, m.pageSize)
    ensures r.Ok? <==> GroupOk(objects, m, codec, g)
    ensures r.Ok? ==> GroupStaged(objects, m, codec, g, staged0, r.value)
  {
    var data := ObjectAt(objects, KeyAt(m, g).value);
    if data.None? {
      return Err;
    }
    var pages, table := PagesAt(m, g), TableAt(m, g);
    var hasTable := m.subPagesPerFrame > 0 && table != [];
    var bytes := if hasTable then codec.decodeSeekable(g, data.value, table, |pages|, m.pageCount)
                 else codec.decodeGroup(g, data.value);
    if bytes.None? {
      return Err;
    }
    var based := StageBase(m, pages, bytes.value, staged0);
    r := StageOverrides(objects, m, codec, g, based);
    if r.Ok? {
      forall i | 0 <= i < |pages| && Distinct(pages)
        ensures LastWrite(r.value, pages[i]) == OrElse(SlotWrite(objects, m, codec, g, i), LastWrite(staged0, pages[i]))
      {
        OverrideWins(objects, m, codec, g, i);
      }
    }
  }

  /** A position's write is its override's, if one covers it, and its base's otherwise. */
  lemma OverrideWins(objects: Objects, m: Manifest, codec: Codec, g: nat, i: nat)
    requires GroupOk(objects, m, codec, g) && KeyAt(m, g).Some? && i < |PagesAt(m, g)|
    ensures SlotWrite(objects, m, codec, g, i) ==
            OrElse(FrameWrite(objects, m, codec, g, OverridesAt(m, g).Keys, i),
                   BaseWrite(m, PagesAt(m, g), BaseBytes(objects, m, codec, g).value, i))
  {
    var f := FrameIndex(m, i);
    if f in OverridesAt(m, g) && FrameWrites(m, PagesAt(m, g), f, i) {
      FrameCovers(objects, m, codec, g, f, i);
    }
  }

  /** An all-zero file shows zeros on every page. */
  lemma NothingWritten(pageCount: nat, pageSize: nat)
    ensures forall p: nat :: p < pageCount ==>
              SliceAt(Zeros(pageCount * pageSize), p, pageSize) == Some(OrZeros(LastWrite([], p), pageSize))
  {
    var file := Zeros(pageCount * pageSize);
    forall p: nat | p < pageCount
      ensures SliceAt(file, p, pageSize) == Some(Zeros(pageSize))
    {
      NextMultiple(p, pageSize);
      MulMonotone(p + 1, pageCount, pageSize);
      assert file[p * pageSize..(p + 1) * pageSize] == Zeros(pageSize);
    }
  }

  lemma OrZerosAppend(staged: seq<Staged>, w: Staged, p: nat, pageSize: nat)
    ensures OrZeros(LastWrite(staged + [w], p), pageSize) == if w.page ==
            p then w.bytes else OrZeros(LastWrite(staged, p), pageSize)
  {
    LastWriteAppend(staged, w, p);
  }

  /** One positioned write of a page. */
  method WritePage(file: seq<Byte>, page: nat, bytes: Page, pageCount: nat, pageSize: nat) returns (after: seq<Byte>)
    requires |file| == pageCount * pageSize && |bytes| == pageSize && page < pageCount
    ensures |after| == |file|
    ensures forall p: nat :: p < pageCount ==>
              SliceAt(after, p, pageSize) == if p == page then Some(bytes) else SliceAt(file, p, pageSize)
  {
    MulMonotone(page + 1, pageCount, pageSize);
    NextMultiple(page, pageSize);
    var offset := page * pageSize;
    after := file[..offset] + bytes + file[offset + pageSize..];
    hide SliceAt;
    forall p: nat | p < pageCount
      ensures SliceAt(after, p, pageSize) == if p == page then Some(bytes) else SliceAt(file, p, pageSize)
    {
      WriteOnePage(file, page, bytes, p, pageCount, pageSize);
    }
  }

  /** `set_len` and the positioned writes, src/tiered/bench.rs:934-939. */
  method WriteFile(staged: seq<Staged>, pageCount: nat, pageSize: nat) returns (file: seq<Byte>)
    requires InRange(staged, pageCount, pageSize)
    ensures |file| == pageCount * pageSize
    ensures forall p: nat :: p < pageCount ==>
              SliceAt(file, p, pageSize) == Some(OrZeros(LastWrite(staged, p), pageSize))
  {
    hide SliceAt, LastWrite, Zeros, OrZeros;
    var size := pageCount * pageSize;
    file := Zeros(size);
    NothingWritten(pageCount, pageSize);
    assert staged[..0] == [];
    for i := 0 to |staged|
      invariant |file| == size
      invariant forall p: nat :: p < pageCount ==>
                  SliceAt(file, p, pageSize) == Some(OrZeros(LastWrite(staged[..i], p), pageSize))
    {
      var w := staged[i];
      file := WritePage(file, w.page, w.bytes, pageCount, pageSize);
      assert staged[..i + 1] == staged[..i] + [w];
      forall p: nat | p < pageCount
        ensures SliceAt(file, p, pageSize) == Some(OrZeros(LastWrite(staged[..i + 1], p), pageSize))
      {
        OrZerosAppend(staged[..i], w, p, pageSize);
      }
    }
    assert staged[..|staged|] == staged;
  }

  /** A page-sized write at a page offset changes that page and no other. */
  lemma WriteOnePage(file: seq<Byte>, q: nat, bytes: Page, p: nat, pageCount: nat, pageSize: nat)
    requires |file| == pageCount * pageSize && |bytes| == pageSize && q < pageCount && p < pageCount
    requires q * pageSize + pageSize <= |file|
    ensures var after := file[..q * pageSize] + bytes + file[q * pageSize + pageSize..];
            SliceAt(after, p, pageSize) == if p == q then Some(bytes) else SliceAt(file, p, pageSize)
  {
    NextMultiple(p, pageSize);
    NextMultiple(q, pageSize);
    MulMonotone(p + 1, pageCount, pageSize);
    var at, end, cut := p * pageSize, (p + 1) * pageSize, q * pageSize;
    var after := file[..cut] + bytes + file[cut + pageSize..];
    if p < q {
      MulMonotone(p + 1, q, pageSize);
      assert after[at..end] == file[at..end];
    } else if q < p {
      MulMonotone(q + 1, p, pageSize);
      assert after[at..end] == file[at..end];
    }
  }

  /** The staged writes hold exactly what the first `n` groups contribute. */
  ghost predicate StagedUpTo(objects: Objects, m: Manifest, codec: Codec, n: nat, staged: seq<Staged>)
    requires forall g: nat :: g < n ==> GroupOk(objects, m, codec, g)
  {
    && (forall p: nat :: (forall g: nat, i: nat :: g < n ==> !Located(m, p, g, i)) ==> LastWrite(staged, p) == None)
    && (UniquePages(m) ==> forall p: nat, g: nat, i: nat :: g < n && Located(m, p, g, i) ==>
          LastWrite(staged, p) == SlotWrite(objects, m, codec, g, i))
  }

  lemma OneMoreGroup(objects: Objects, m: Manifest, codec: Codec, n: nat, staged: seq<Staged>, staged': seq<Staged>)
    requires forall g: nat :: g <= n ==> GroupOk(objects, m, codec, g)
    requires StagedUpTo(objects, m, codec, n, staged)
    requires KeyAt(m, n).Some? ==> GroupStaged(objects, m, codec, n, staged, staged')
    requires KeyAt(m, n).None? ==> staged' == staged
    ensures StagedUpTo(objects, m, codec, n + 1, staged')
  {
    if KeyAt(m, n).Some? {
      var pages := PagesAt(m, n);
      forall p: nat | forall g: nat, i: nat :: g < n + 1 ==> !Located(m, p, g, i)
        ensures LastWrite(staged', p) == None
      {
        if p in pages {
          var i :| 0 <= i < |pages| && pages[i] == p;
          assert Located(m, p, n, i);
        }
      }
      if UniquePages(m) {
        assert Distinct(pages) by {
          forall i, j | 0 <= i < j < |pages|
            ensures pages[i] != pages[j]
          {
            assert Located(m, pages[i], n, i) && Located(m, pages[j], n, j);
          }
        }
        forall p: nat, g: nat, i: nat | g < n + 1 && Located(m, p, g, i)
          ensures LastWrite(staged', p) == SlotWrite(objects, m, codec, g, i)
        {
          if g < n {
            assert p !in pages by {
              if j :| 0 <= j < |pages| && pages[j] == p {
                assert Located(m, p, n, j);
              }
            }
          } else {
            assert LastWrite(staged, p) == None;
          }
        }
      }
    }
  }

  /** The staging loop over the groups that have a key, src/tiered/bench.rs:775-929. */
  method StageAll(objects: Objects, m: Manifest, codec: Codec) returns (r: Result<seq<Staged>>)
    ensures r.Ok? <==> forall g: nat :: GroupOk(objects, m, codec, g)
    ensures r.Ok? ==>
              && InRange(r.value, m.pageCount, m.pageSize)
              && StagedUpTo(objects, m, codec, |m.pageGroupKeys|, r.value)
  {
    hide GroupStaged, StagedUpTo;
    var staged := [];
    assert StagedUpTo(objects, m, codec, 0, []) by {
      NothingStaged(objects, m, codec);
    }
    for g: nat := 0 to |m.pageGroupKeys|
      invariant forall h: nat :: h < g ==> GroupOk(objects, m, codec, h)
      invariant InRange(staged, m.pageCount, m.pageSize)
      invariant StagedUpTo(objects, m, codec, g, staged)
    {
      ghost var before := staged;
      if m.pageGroupKeys[g].Some? {
        var next := StageGroup(objects, m, codec, g, staged);
        if next.Err? {
          return Err;
        }
        staged := next.value;
        StagedInRange(objects, m, codec, g, before, staged);
      }
      OneMoreGroup(objects, m, codec, g, before, staged);
    }
    r := Ok(staged);
  }

  lemma NothingStaged(objects: Objects, m: Manifest, codec: Codec)
    ensures StagedUpTo(objects, m, codec, 0, [])
  {
  }

  lemma StagedInRange(objects: Objects, m: Manifest, codec: Codec, g: nat, staged0: seq<Staged>, staged: seq<Staged>)
    requires GroupOk(objects, m, codec, g) && KeyAt(m, g).Some? && GroupStaged(objects, m, codec, g, staged0, staged)
    ensures InRange(staged, m.pageCount, m.pageSize)
  {
  }

  lemma StagedIsContent(objects: Objects, m: Manifest, codec: Codec, staged: seq<Staged>, p: nat)
    requires Materializable(objects, m, codec) && UniquePages(m)
    requires StagedUpTo(objects, m, codec, |m.pageGroupKeys|, staged)
    ensures OrZeros(LastWrite(staged, p), m.pageSize) == PageContent(objects, m, codec, p)
  {
    if Listed(m, p) {
      var g: nat, i: nat :| Located(m, p, g, i);
      ContentAt(objects, m, codec, p, g, i);
    }
  }

  /** A page that shows the page map's content shows what the manifest's fields say. */
  lemma PageIs(objects: Objects, m: Manifest, codec: Codec, file: seq<Byte>, p: nat)
    requires Materializable(objects, m, codec) && p < m.pageCount && UniquePages(m)
    requires SliceAt(file, p, m.pageSize) == Some(PageContent(objects, m, codec, p))
    ensures m.positional ==> HasPage(file, p, m.pageSize, StridedPage(objects, m, codec, p))
    ensures !m.positional ==> forall g: nat, i: nat :: ListedAt(m, p, g, i) ==>
              HasPage(file, p, m.pageSize, ListedPage(objects, m, codec, g, i))
    ensures !m.positional && (forall g: nat, i: nat :: !ListedAt(m, p, g, i)) ==>
              HasPage(file, p, m.pageSize, Zeros(m.pageSize))
  {
    hide PageContent, UniquePages, Materializable, StridedPage, ListedPage, ListedOnce;
    NextMultiple(p, m.pageSize);
    assert HasPage(file, p, m.pageSize, PageContent(objects, m, codec, p));
    if m.positional {
      StridedContent(objects, m, codec, p);
    } else {
      ListedPagesAreUnique(m);
      forall g: nat, i: nat
        ensures Located(m, p, g, i) <==> ListedAt(m, p, g, i)
        ensures ListedAt(m, p, g, i) ==> PageContent(objects, m, codec, p) == ListedPage(objects, m, codec, g, i)
      {
        ListedPlace(m, p, g, i);
        if ListedAt(m, p, g, i) {
          ListedContent(objects, m, codec, p, g, i);
        }
      }
      if forall g: nat, i: nat :: !ListedAt(m, p, g, i) {
        UnlistedContent(objects, m, codec, p);
      }
    }
  }

  /** The written file over the manifest's fields. */
  ghost predicate FileShows(objects: Objects, m: Manifest, codec: Codec, file: seq<Byte>) {
    && (m.positional ==>
          forall p: nat :: p < m.pageCount ==> HasPage(file, p, m.pageSize, StridedPage(objects, m, codec, p)))
    && (!m.positional && ListedOnce(m) ==>
          && (forall p: nat, g: nat, i: nat :: p < m.pageCount && ListedAt(m, p, g, i) ==>
                HasPage(file, p, m.pageSize, ListedPage(objects, m, codec, g, i)))
          && (forall p: nat :: p < m.pageCount && (forall g: nat, i: nat :: !ListedAt(m, p, g, i)) ==>
                HasPage(file, p, m.pageSize, Zeros(m.pageSize))))
  }

  lemma FileIs(objects: Objects, m: Manifest, codec: Codec, file: seq<Byte>)
    requires Materializable(objects, m, codec)
    requires UniquePages(m) ==> forall p: nat :: p < m.pageCount ==>
               SliceAt(file, p, m.pageSize) == Some(PageContent(objects, m, codec, p))
    ensures FileShows(objects, m, codec, file)
  {
    hide PageContent, UniquePages, Materializable, StridedPage, ListedPage, ListedOnce, SliceAt, HasPage, Zeros;
    if m.positional {
      StridedPagesAreUnique(m);
    } else {
      ListedPagesAreUnique(m);
    }
    if m.positional {
      forall p: nat | p < m.pageCount
        ensures HasPage(file, p, m.pageSize, StridedPage(objects, m, codec, p))
      {
        PageIs(objects, m, codec, file, p);
      }
    } else if ListedOnce(m) {
      forall p: nat, g: nat, i: nat | p < m.pageCount && ListedAt(m, p, g, i)
        ensures HasPage(file, p, m.pageSize, ListedPage(objects, m, codec, g, i))
      {
        PageIs(objects, m, codec, file, p);
      }
      forall p: nat | p < m.pageCount && (forall g: nat, i: nat :: !ListedAt(m, p, g, i))
        ensures HasPage(file, p, m.pageSize, Zeros(m.pageSize))
      {
        PageIs(objects, m, codec, file, p);
      }
    }
  }

  /**
   Refines the page map: with each page in one place, page `p` of the output is its override's
   page, else its base page. It succeeds exactly when every object is there and decodes; on
   failure the output file is untouched. `Restorable` and `FileShows` say both over the
   manifest's fields, for positional manifests and for those that list their groups.
   */
  method MaterializeManifestToFile(objects: Objects, m: Manifest, codec: Codec, output: Option<seq<Byte>>)
    returns (r: Result<nat>, file: Option<seq<Byte>>)
    ensures r.Ok? <==> Materializable(objects, m, codec)
    ensures r.Ok? <==> Restorable(objects, m, codec)
    ensures r.Err? ==> file == output
    ensures r.Ok? ==> r.value == m.changeCounter && file.Some? && |file.value| == m.pageCount * m.pageSize
    ensures r.Ok? && UniquePages(m) ==>
              forall p: nat :: p < m.pageCount ==>
                SliceAt(file.value, p, m.pageSize) == Some(PageContent(objects, m, codec, p))
    ensures r.Ok? ==> FileShows(objects, m, codec, file.value)
  {
    file := output;
    RestorableIs(objects, m, codec);
    if m.pageCount == 0 || m.pageSize == 0 {
      return Err, output;
    }
    var staged := StageAll(objects, m, codec);
    if staged.Err? {
      return Err, output;
    }
    var bytes := WriteFile(staged.value, m.pageCount, m.pageSize);
    forall p: nat | p < m.pageCount && UniquePages(m)
      ensures SliceAt(bytes, p, m.pageSize) == Some(PageContent(objects, m, codec, p))
    {
      StagedIsContent(objects, m, codec, staged.value, p);
    }
    FileIs(objects, m, codec, bytes);
    r, file := Ok(m.changeCounter), Some(bytes);
  }

  lemma InFrame(m: Manifest, i: nat)
    requires m.subPagesPerFrame > 0
    ensures FrameStart(m, FrameIndex(m, i)) <= i < FrameStart(m, FrameIndex(m, i)) + m.subPagesPerFrame
  {
    FrameOf(i, m.subPagesPerFrame, FrameIndex(m, i));
  }

  /** Where the copy loop that writes position `i` starts: at its frame if that is overridden, else at the group. */
  ghost function CopyStart(m: Manifest, g: nat, i: nat): nat {
    if FrameIndex(m, i) in OverridesAt(m, g) then FrameStart(m, FrameIndex(m, i)) else 0
  }

  /** The slice a position has in its override frame, if its frame is overridden, and in the base group otherwise. */
  ghost function SimplePage(objects: Objects, m: Manifest, codec: Codec, g: nat, i: nat): Option<Page> {
    if FrameIndex(m, i) in OverridesAt(m, g) then FramePage(objects, m, codec, g, i)
    else BasePage(objects, m, codec, g, i)
  }

  /**
   The page map in plain words: with each page in one place, a page of the database is its
   position's simple slice if its copy loop reaches it, and zeros otherwise.
   */
  lemma SimplePageMap(objects: Objects, m: Manifest, codec: Codec, p: nat, g: nat, i: nat)
    requires Materializable(objects, m, codec) && UniquePages(m) && Located(m, p, g, i)
    ensures PageContent(objects, m, codec, p) ==
            if Reached(PagesAt(m, g), CopyStart(m, g, i), i, m.pageCount)
            then OrZeros(SimplePage(objects, m, codec, g, i), m.pageSize) else Zeros(m.pageSize)
    ensures FrameIndex(m, i) in OverridesAt(m, g) ==> SimplePage(objects, m, codec, g, i).Some?
  {
    hide PageContent, UniquePages, PagesAt, SliceAt, FrameBytes, BaseBytes;
    ContentAt(objects, m, codec, p, g, i);
    assert GroupOk(objects, m, codec, g);
    if FrameIndex(m, i) in OverridesAt(m, g) {
      InFrame(m, i);
      FrameCovers(objects, m, codec, g, FrameIndex(m, i), i);
    }
  }

  /** In a group whose list ascends, the loops reach every page of the database. */
  lemma AscendingPageMap(objects: Objects, m: Manifest, codec: Codec, p: nat, g: nat, i: nat)
    requires Materializable(objects, m, codec) && UniquePages(m) && Located(m, p, g, i)
    requires p < m.pageCount && Ascending(PagesAt(m, g))
    ensures PageContent(objects, m, codec, p) == OrZeros(SimplePage(objects, m, codec, g, i), m.pageSize)
  {
    hide PageContent, UniquePages, PagesAt, SimplePage, Materializable;
    SimplePageMap(objects, m, codec, p, g, i);
    if FrameIndex(m, i) in OverridesAt(m, g) {
      InFrame(m, i);
    }
    AscendingReachesAll(PagesAt(m, g), CopyStart(m, g, i), i, m.pageCount);
  }
}
