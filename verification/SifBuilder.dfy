/** `ee_sif_build_dma_job`: compiling a descriptor list in place into a job's stream buffer. */
module SifBuilder {
  import opened Bytes
  import opened SifStream

  ghost predicate Same(was: seq<u8>, now: seq<u8>, lo: nat, hi: nat) {
    && |now| == |was|
    && forall i | lo <= i < hi && i < |was| :: now[i] == was[i]
  }

  method PutWord(stream: array<u8>, off: nat, w: u32)
    requires off + 4 <= stream.Length
    modifies stream
    ensures Same(old(stream[..]), stream[..], 0, off)
    ensures Same(old(stream[..]), stream[..], off + 4, stream.Length)
    ensures Word(stream[..], off) == w
  {
    StoreWord(stream, off, w);
    WordOfLE32(w);
    assert Word(stream[..], off) == Word(stream[off..off + 4], 0);
  }

  method CopyIn(stream: array<u8>, off: nat, ee: EeMemory, src: u32, n: nat)
    requires off + n <= stream.Length
    modifies stream
    ensures Same(old(stream[..]), stream[..], 0, off)
    ensures Same(old(stream[..]), stream[..], off + n, stream.Length)
    ensures stream[off..off + n] == SourceBytes(ee, src, n)
  {
    ghost var want := SourceBytes(ee, src, n);
    for i := 0 to n
      invariant Same(old(stream[..]), stream[..], 0, off)
      invariant Same(old(stream[..]), stream[..], off + i, stream.Length)
      invariant forall k | off <= k < off + i :: stream[k] == want[k - off]
    {
      stream[off + i] := ee(Wrap32((src as int) + i));
    }
  }

  lemma WordSame(was: seq<u8>, now: seq<u8>, lo: nat, hi: nat, off: nat)
    requires Same(was, now, lo, hi) && lo <= off && off + 4 <= hi <= |was|
    ensures Word(now, off) == Word(was, off)
  {
  }

  /** An item stays in place while other parts of the stream change. */
  lemma PlacedFrame(was: seq<u8>, now: seq<u8>, t: nat, item: Item, tagHi: nat, recLo: nat, recHi: nat)
    requires Placed(was, t, item)
    requires Same(was, now, 0, tagHi) && t + 16 <= tagHi <= |was|
    requires Same(was, now, recLo, recHi) && recLo <= item.off && item.off + 16 + |item.data| <= recHi <= |was|
    ensures Placed(now, t, item)
  {
    hide Word;
    WordSame(was, now, 0, tagHi, t);
    WordSame(was, now, 0, tagHi, t + 4);
    WordSame(was, now, recLo, recHi, item.off);
    WordSame(was, now, recLo, recHi, item.off + 4);
  }

  /** The source bytes, behind them the zeros that are there already. */
  method PlaceData(stream: array<u8>, at: nat, data: seq<u8>, ee: EeMemory, src: u32, n: nat)
    requires at + |data| <= stream.Length
    requires n <= |data| && data[..n] == SourceBytes(ee, src, n)
    requires forall k | n <= k < |data| :: data[k] == 0
    requires forall k | at <= k < at + |data| :: stream[k] == 0
    modifies stream
    ensures stream[at..at + |data|] == data
    ensures Same(old(stream[..]), stream[..], 0, at)
    ensures Same(old(stream[..]), stream[..], at + |data|, stream.Length)
  {
    hide SourceBytes;
    if n > 0 {
      CopyIn(stream, at, ee, src, n);
    }
    forall k | 0 <= k < |data|
      ensures stream[at + k] == data[k]
    {
      if k < n {
        assert stream[at..at + n][k] == data[..n][k];
      }
    }
  }

  /** One round of the compiler: the source bytes, the record header and the tag. */
  method PlaceRecord(stream: array<u8>, t: nat, item: Item, ee: EeMemory, src: u32, n: nat)
    requires t + 16 <= item.off && item.off + 16 + |item.data| <= stream.Length
    requires |item.data| % 4 == 0 && |item.data| / 4 < 0x1_0000_0000
    requires n <= |item.data| && item.data[..n] == SourceBytes(ee, src, n)
    requires forall k | n <= k < |item.data| :: item.data[k] == 0
    requires forall k | item.off <= k < item.off + 16 + |item.data| :: stream[k] == 0
    modifies stream
    ensures Placed(stream[..], t, item)
    ensures Same(old(stream[..]), stream[..], 0, t)
    ensures Same(old(stream[..]), stream[..], t + 16, item.off)
    ensures Same(old(stream[..]), stream[..], item.off + 16 + |item.data|, stream.Length)
  {
    hide Word, SourceBytes;
    var off := item.off;
    PlaceData(stream, off + 16, item.data, ee, src, n);
    label L0:
    PutWord(stream, off, item.header);
    label L1:
    PutWord(stream, off + 4, |item.data| / 4);
    WordSame(old@L1(stream[..]), stream[..], 0, off + 4, off);
    assert Same(old@L0(stream[..]), stream[..], off + 8, stream.Length);
    label L2:
    PlaceTag(stream, t, item.tag, item.addr);
    WordSame(old@L2(stream[..]), stream[..], t + 16, stream.Length, off);
    WordSame(old@L2(stream[..]), stream[..], t + 16, stream.Length, off + 4);
    SameSlice(old@L0(stream[..]), old@L2(stream[..]), off + 8, stream.Length, off + 16, off + 16 + |item.data|);
    SameSlice(old@L2(stream[..]), stream[..], t + 16, stream.Length, off + 16, off + 16 + |item.data|);
  }

  lemma SameSlice(was: seq<u8>, now: seq<u8>, lo: nat, hi: nat, from: nat, to: nat)
    requires lo <= from <= to <= hi <= |was| == |now| && Same(was, now, lo, hi)
    ensures was[from..to] == now[from..to]
  {
  }

  method PlaceTag(stream: array<u8>, t: nat, tag: u32, addr: u32)
    requires t + 16 <= stream.Length
    modifies stream
    ensures Word(stream[..], t) == tag && Word(stream[..], t + 4) == addr
    ensures Same(old(stream[..]), stream[..], 0, t)
    ensures Same(old(stream[..]), stream[..], t + 16, stream.Length)
  {
    hide Word;
    PutWord(stream, t, tag);
    label L1:
    PutWord(stream, t + 4, addr);
    WordSame(old@L1(stream[..]), stream[..], 0, t + 4, t);
    label L2:
    PutWord(stream, t + 8, 0);
    PutWord(stream, t + 12, 0);
    assert Same(old@L2(stream[..]), stream[..], 0, t + 8);
    WordSame(old@L2(stream[..]), stream[..], 0, t + 8, t);
    WordSame(old@L2(stream[..]), stream[..], 0, t + 8, t + 4);
  }

  /** The first items of a job, laid out one after the other behind `n` tags, up to `off`. */
  ghost predicate Laid(stream: seq<u8>, items: seq<Item>, n: nat, off: nat) {
    && (forall j | 0 <= j < |items| :: Placed(stream, 16 * j, items[j]))
    && (forall j | 0 <= j < |items| :: 16 * n <= items[j].off && items[j].off + 16 + |items[j].data| <= off)
    && (forall k | off <= k < |stream| :: stream[k] == 0)
  }

  lemma LayNext(was: seq<u8>, now: seq<u8>, items: seq<Item>, n: nat, item: Item)
    requires Laid(was, items, n, item.off) && |items| < n && 16 * n <= item.off
    requires item.off + 16 + |item.data| <= |was|
    requires Same(was, now, 0, 16 * |items|) && Same(was, now, 16 * |items| + 16, item.off)
    requires Same(was, now, item.off + 16 + |item.data|, |was|)
    requires Placed(now, 16 * |items|, item)
    ensures Laid(now, items + [item], n, item.off + 16 + |item.data|)
  {
    hide Placed;
    forall j | 0 <= j < |items|
      ensures Placed(now, 16 * j, items[j])
    {
      PlacedFrame(was, now, 16 * j, items[j], 16 * |items|, 16 * |items| + 16, item.off);
    }
  }

  lemma {:induction false} OffsetsMonotone(ds: seq<Descriptor>, subaddr: u32, i: nat, j: nat)
    requires i <= j <= |ds|
    ensures RecordOffset(ds, subaddr, i) <= RecordOffset(ds, subaddr, j)
    decreases j
  {
    if i < j {
      OffsetsMonotone(ds, subaddr, i, j - 1);
    }
  }

  method Clear(stream: array<u8>)
    modifies stream
    ensures forall k | 0 <= k < stream.Length :: stream[k] == 0
  {
    for k := 0 to stream.Length
      invariant forall j | 0 <= j < k :: stream[j] == 0
    {
      stream[k] := 0;
    }
  }

  method LayOne(stream: array<u8>, i: nat, n: nat, item: Item, ee: EeMemory, src: u32, bytes: nat,
      ghost items: seq<Item>)
    requires i < n && 16 * n <= item.off && item.off + 16 + |item.data| <= stream.Length <= 0x1_0000
    requires |items| == i && Laid(stream[..], items, n, item.off)
    requires bytes <= |item.data| && |item.data| % 4 == 0
             && item.data == PadTo(SourceBytes(ee, src, bytes), |item.data|)
    modifies stream
    ensures Laid(stream[..], items + [item], n, item.off + 16 + |item.data|)
  {
    hide Placed, Laid, SourceBytes, PadTo;
    PaddingIsZero(SourceBytes(ee, src, bytes), |item.data|);
    ghost var was := stream[..];
    LaidRestIsZero(was, items, n, item.off);
    PlaceRecord(stream, 16 * i, item, ee, src, bytes);
    LayNext(was, stream[..], items, n, item);
  }

  /** The loop's tests, in the 32-bit arithmetic of the source. */
  method CheckOne(d: Descriptor, scratchOff: nat, subaddr: u32) returns (ok: bool, qbytes: u32)
    requires scratchOff <= SIF_DMA_JOB_STREAM_SIZE
    ensures ok <==> DescriptorOk(d, subaddr) && scratchOff + 16 + QuadBytes(d, subaddr) <= SIF_DMA_JOB_STREAM_SIZE
    ensures ok ==> qbytes == QuadBytes(d, subaddr) && 0 <= d.size <= qbytes && qbytes % 16 == 0
  {
    var bytes := Wrap32(d.size);
    if d.size < 0 {
      return false, 0;
    }
    if bytes > 0 && d.src == 0 {
      return false, 0;
    }
    var blockBytes := if subaddr != 0 && Dest(d) == subaddr then SIF_CMD_RECV_BLOCK else bytes;
    qbytes := Wrap32((blockBytes as int) + 15) / 16 * 16;
    if bytes > blockBytes {
      return false, 0;
    }
    BlockRoundsUp(d, subaddr);
    return Wrap32(scratchOff + 16 + qbytes) <= SIF_DMA_JOB_STREAM_SIZE, qbytes;
  }

  /** The body of the compiler's loop: check descriptor `d` and lay out its item, tag number `i` of `n`. */
  method CompileOne(stream: array<u8>, base: u32, d: Descriptor, i: nat, n: nat, scratchOff: nat, subaddr: u32,
                    ee: EeMemory, ghost items: seq<Item>)
    returns (ok: bool, qbytes: u32)
    requires stream.Length == SIF_DMA_JOB_STREAM_SIZE && base + SIF_DMA_JOB_STREAM_SIZE <= PHYS_SPAN
    requires i < n && 16 * n <= scratchOff <= SIF_DMA_JOB_STREAM_SIZE
    requires |items| == i && Laid(stream[..], items, n, scratchOff)
    modifies stream
    ensures ok <==> DescriptorOk(d, subaddr) && scratchOff + 16 + QuadBytes(d, subaddr) <= SIF_DMA_JOB_STREAM_SIZE
    ensures ok ==> qbytes == QuadBytes(d, subaddr)
    ensures ok ==>
              var item := Item(scratchOff, TagWord(i == n - 1, qbytes / 16 + 1), Wrap32(base + scratchOff),
                  HeaderWord(d),
                               Requested(d, ee, subaddr).data);
              Laid(stream[..], items + [item], n, scratchOff + 16 + qbytes)
  {
    hide Placed, Laid, HeaderWord, TagWord, SourceBytes, PadTo, DescriptorOk;
    ok, qbytes := CheckOne(d, scratchOff, subaddr);
    if ok {
      hide QuadBytes;
      var item := Item(scratchOff, TagWord(i == n - 1, qbytes / 16 + 1), base + scratchOff, HeaderWord(d),
                       PadTo(SourceBytes(ee, d.src, d.size), qbytes));
      LayOne(stream, i, n, item, ee, d.src, d.size, items);
    }
  }

  /** The items are those of the first descriptors, all of which are well formed. */
  ghost predicate Compiled(items: seq<Item>, ds: seq<Descriptor>, ee: EeMemory, subaddr: u32, base: u32) {
    && |items| <= |ds|
    && forall j | 0 <= j < |items| :: DescriptorOk(ds[j], subaddr) && items[j] == ItemOf(ds, ee, subaddr, base, j)
  }

  lemma StartCompiling(stream: seq<u8>, ds: seq<Descriptor>, ee: EeMemory, subaddr: u32, base: u32)
    returns (items: seq<Item>)
    requires forall k | 0 <= k < |stream| :: stream[k] == 0
    ensures items == [] && Compiled(items, ds, ee, subaddr, base)
    ensures RecordOffset(ds, subaddr, 0) == 16 * |ds| && Laid(stream, items, |ds|, 16 * |ds|)
  {
    items := [];
  }

  lemma OneBadIsUnacceptable(ds: seq<Descriptor>, subaddr: u32, i: nat)
    requires i < |ds|
    requires !(DescriptorOk(ds[i], subaddr)
               && RecordOffset(ds, subaddr, i) + 16 + QuadBytes(ds[i], subaddr) <= SIF_DMA_JOB_STREAM_SIZE)
    ensures !Acceptable(ds, subaddr)
  {
    OffsetsIncrease(ds, subaddr, i);
  }

  lemma CompileNext(stream: seq<u8>, items: seq<Item>, ds: seq<Descriptor>, ee: EeMemory, subaddr: u32, base: u32,
                    qbytes: u32) returns (next: seq<Item>)
    requires Compiled(items, ds, ee, subaddr, base) && |items| < |ds| && DescriptorOk(ds[|items|], subaddr)
    requires qbytes == QuadBytes(ds[|items|], subaddr)
    requires var off := RecordOffset(ds, subaddr, |items|);
             Laid(stream,
                  items + [Item(off, TagWord(|items| == |ds| - 1, qbytes / 16 + 1), Wrap32(base + off),
                                HeaderWord(ds[|items|]), Requested(ds[|items|], ee, subaddr).data)],
                  |ds|, off + 16 + qbytes)
    ensures Compiled(next, ds, ee, subaddr, base) && |next| == |items| + 1
    ensures Laid(stream, next, |ds|, RecordOffset(ds, subaddr, |items|) + 16 + qbytes)
  {
    hide Laid, DescriptorOk, RecordOffset, TagWord, HeaderWord, Requested, QuadBytes, Wrap32;
    var item := ItemOf(ds, ee, subaddr, base, |items|);
    next := items + [item];
    hide ItemOf;
    forall j | 0 <= j < |next|
      ensures DescriptorOk(ds[j], subaddr) && next[j] == ItemOf(ds, ee, subaddr, base, j)
    {
      if j < |items| {
        assert next[j] == items[j];
      }
    }
  }

  lemma CompiledJobRuns(stream: seq<u8>, items: seq<Item>, ds: seq<Descriptor>, ee: EeMemory, subaddr: u32, base: u32)
    requires |stream| == SIF_DMA_JOB_STREAM_SIZE && base + SIF_DMA_JOB_STREAM_SIZE <= PHYS_SPAN
    requires 1 <= |items| == |ds| <= SIF_DMA_MAX_DESCS && Compiled(items, ds, ee, subaddr, base)
    requires RecordOffset(ds, subaddr, |ds|) <= |stream| && Laid(stream, items, |ds|, RecordOffset(ds, subaddr, |ds|))
    ensures Acceptable(ds, subaddr)
    ensures Walk(stream, base, 0) == Some(RequestedAll(ds, ee, subaddr))
  {
    hide DescriptorOk, ItemOf, Walk, RequestedAll, Placed;
    LaidIsPlaced(stream, items, |ds|, RecordOffset(ds, subaddr, |ds|));
    CompiledChainRuns(stream, ds, ee, subaddr, base);
  }

  method BuildDmaJob(stream: array<u8>, base: u32, dmat: array<Descriptor>, count: i32, subaddr: u32, ee: EeMemory)
    returns (rc: int, size: nat)
    requires stream.Length == SIF_DMA_JOB_STREAM_SIZE
    requires base + SIF_DMA_JOB_STREAM_SIZE <= PHYS_SPAN
    requires 1 <= count <= SIF_DMA_MAX_DESCS ==> count <= dmat.Length
    modifies stream
    ensures rc == 0 || rc == -1
    ensures rc == 0 <==> 1 <= count <= SIF_DMA_MAX_DESCS && Acceptable(dmat[..count], subaddr)
    ensures rc == 0 ==> Walk(stream[..], base, 0) == Some(RequestedAll(dmat[..count], ee, subaddr))
    ensures rc == 0 ==> size == RecordOffset(dmat[..count], subaddr, count) <= SIF_DMA_JOB_STREAM_SIZE
  {
    hide Laid, Compiled, Walk, RequestedAll, TagWord, QuadBytes, DescriptorOk, Acceptable, ItemOf, RecordOffset;
    size := 0;
    if count <= 0 || count > SIF_DMA_MAX_DESCS {
      return -1, 0;
    }
    ghost var ds := dmat[..count];
    size := 16 * count;
    Clear(stream);
    ghost var items := StartCompiling(stream[..], ds, ee, subaddr, base);

    var i := 0;
    while i < count
      invariant 0 <= i <= count
      invariant size == RecordOffset(ds, subaddr, i)
      invariant 16 * count <= size <= SIF_DMA_JOB_STREAM_SIZE
      invariant |items| == i && Laid(stream[..], items, count, size)
      invariant Compiled(items, ds, ee, subaddr, base)
    {
      OffsetsIncrease(ds, subaddr, i);
      var ok, qbytes := CompileOne(stream, base, dmat[i], i, count, size, subaddr, ee, items);
      if !ok {
        OneBadIsUnacceptable(ds, subaddr, i);
        return -1, 0;
      }
      items := CompileNext(stream[..], items, ds, ee, subaddr, base, qbytes);
      size := size + 16 + qbytes;
      i := i + 1;
    }
    CompiledJobRuns(stream[..], items, ds, ee, subaddr, base);
    return 0, size;
  }

  lemma LaidRestIsZero(stream: seq<u8>, items: seq<Item>, n: nat, off: nat)
    requires Laid(stream, items, n, off)
    ensures forall k | off <= k < |stream| :: stream[k] == 0
  {
  }

  lemma LaidIsPlaced(stream: seq<u8>, items: seq<Item>, n: nat, off: nat)
    requires Laid(stream, items, n, off)
    ensures forall j | 0 <= j < |items| :: Placed(stream, 16 * j, items[j])
  {
    hide Placed;
  }

  lemma PaddingIsZero(s: seq<u8>, n: nat)
    ensures PadTo(s, n)[..|s|] == s
    ensures forall k | |s| <= k < |PadTo(s, n)| :: PadTo(s, n)[k] == 0
  {
  }
}
