/**
 The SIF1 transfer programs of the PlayStation 2 loader: the compiler that turns a
 descriptor list into a source chain of DMA tags and record headers, and the machine that
 runs such a chain.
 */
module SifStream {
  import opened Bytes

  const SIF_DMA_MAX_DESCS := 8
  const SIF_DMA_JOB_STREAM_SIZE := 1024
  const SIF_CMD_RECV_BLOCK := 128
  const ATTR_INT_O := 0x04
  const ATTR_ERT := 0x40
  const FLAG_INT_O := 0x4000_0000
  const FLAG_ERT := 0x8000_0000
  const DMA_TAG_REFE := 0
  const DMA_TAG_REF := 3
  const PHYS_SPAN := 0x2000_0000  // addresses are masked with 0x1fffffff

  /** EE memory as it stands when a transfer is submitted. */
  type EeMemory = u32 -> u8

  datatype Descriptor = Descriptor(src: u32, dest: u32, size: i32, attr: u32)

  // ---------------------------------------------------------------- what a list asks for

  function Dest(d: Descriptor): nat {
    d.dest % PHYS_SPAN
  }

  /** A transfer to the IOP command buffer always fills the whole receive block. */
  function BlockBytes(d: Descriptor, subaddr: u32): u32 {
    if subaddr != 0 && Dest(d) == subaddr then SIF_CMD_RECV_BLOCK else Wrap32(d.size)
  }

  /** The block rounded up to quadwords, in the 32-bit arithmetic of the source. */
  function QuadBytes(d: Descriptor, subaddr: u32): u32 {
    Wrap32((BlockBytes(d, subaddr) as int) + 15) / 16 * 16
  }

  predicate DescriptorOk(d: Descriptor, subaddr: u32) {
    && d.size >= 0
    && (d.size > 0 ==> d.src != 0)
    && d.size <= BlockBytes(d, subaddr)
  }

  /** A descriptor is good if its size is not negative, it has a source unless it is empty, and it fits the
      command buffer if that is where it goes. */
  lemma DescriptorMeans(d: Descriptor, subaddr: u32)
    ensures DescriptorOk(d, subaddr)
            <==> && 0 <= d.size && (d.size == 0 || d.src != 0)
                 && (subaddr != 0 && d.dest % 0x2000_0000 == subaddr ==> d.size <= 128)
  {
  }

  /** Offset of the `i`-th record: all tags come first, then the records in order. */
  ghost function RecordOffset(ds: seq<Descriptor>, subaddr: u32, i: nat): nat
    requires i <= |ds|
  {
    if i == 0 then 16 * |ds| else RecordOffset(ds, subaddr, i - 1) + 16 + QuadBytes(ds[i - 1], subaddr)
  }

  predicate AllOk(ds: seq<Descriptor>, subaddr: u32) {
    forall i | 0 <= i < |ds| :: DescriptorOk(ds[i], subaddr)
  }

  ghost predicate Acceptable(ds: seq<Descriptor>, subaddr: u32) {
    && 1 <= |ds| <= SIF_DMA_MAX_DESCS
    && AllOk(ds, subaddr)
    && RecordOffset(ds, subaddr, |ds|) <= SIF_DMA_JOB_STREAM_SIZE
  }

  function SourceBytes(ee: EeMemory, src: u32, n: nat): (s: seq<u8>)
    ensures |s| == n
  {
    seq<u8>(n, i => ee(Wrap32((src as int) + i)))
  }

  /** One delivery to IOP memory. */
  datatype Record = Record(dest: nat, interrupt: bool, end: bool, data: seq<u8>)

  function PadTo(s: seq<u8>, n: nat): (r: seq<u8>)
    ensures s <= r && |r| == if |s| < n then n else |s|
  {
    if |s| < n then s + Zeros(n - |s|) else s
  }

  /** What descriptor `d` asks the IOP to receive: its bytes, zero-padded to the block. */
  function Requested(d: Descriptor, ee: EeMemory, subaddr: u32): Record {
    Record(Dest(d), HasBit(d.attr, ATTR_INT_O), HasBit(d.attr, ATTR_ERT),
           PadTo(SourceBytes(ee, d.src, if d.size < 0 then 0 else d.size), QuadBytes(d, subaddr)))
  }

  function RequestedAll(ds: seq<Descriptor>, ee: EeMemory, subaddr: u32): (rs: seq<Record>)
    ensures |rs| == |ds|
    ensures forall i | 0 <= i < |ds| :: rs[i] == Requested(ds[i], ee, subaddr)
  {
    seq(|ds|, i requires 0 <= i < |ds| => Requested(ds[i], ee, subaddr))
  }

  /** No 32-bit rounding wraps: the padded size is the least multiple of 16 that fits. */
  lemma BlockRoundsUp(d: Descriptor, subaddr: u32)
    requires DescriptorOk(d, subaddr)
    ensures d.size <= BlockBytes(d, subaddr) <= QuadBytes(d, subaddr) < BlockBytes(d, subaddr) + 16
    ensures QuadBytes(d, subaddr) % 16 == 0
    ensures QuadBytes(d, subaddr) <= 0x8000_0000
  {
  }

  // ---------------------------------------------------------------- running a chain

  datatype Fetch = Fault | Tag(record: Record, last: bool)

  /** One tag of the chain at offset `t`, read from a stream that lies at physical `base`.
      Leaving the stream, an unknown tag or a record whose length disagrees is a fault. */
  function FetchTag(stream: seq<u8>, base: u32, t: nat): Fetch {
    if t + 16 > |stream| then Fault
    else
      var tag := Word(stream, t);
      var off := Word(stream, t + 4) - base;
      if TagId(tag) != DMA_TAG_REF && TagId(tag) != DMA_TAG_REFE then Fault
      else if TagQuads(tag) < 1 || off < 0 || off + 16 * TagQuads(tag) > |stream| then Fault
      else if 4 * Word(stream, off + 4) != 16 * TagQuads(tag) - 16 then Fault
      else
        Tag(DecodeRecord(Word(stream, off), stream[off + 16..off + 16 * TagQuads(tag)]),
            TagId(tag) == DMA_TAG_REFE)
  }

  function TagId(tag: u32): int {
    tag / 0x1000_0000 % 8
  }

  function TagQuads(tag: u32): int {
    tag % 0x1_0000
  }

  function DecodeRecord(header: u32, data: seq<u8>): Record {
    Record(header % FLAG_INT_O, HasBit(header, FLAG_INT_O), HasBit(header, FLAG_ERT), data)
  }

  /** Everything the chain starting at `t` delivers, or None if it ever faults. */
  function Walk(stream: seq<u8>, base: u32, t: nat): Option<seq<Record>>
    decreases |stream| - t
  {
    match FetchTag(stream, base, t)
    case Fault => None
    case Tag(r, last) =>
      if last then Some([r])
      else match Walk(stream, base, t + 16)
        case None => None
        case Some(rest) => Some([r] + rest)
  }

  /** A chain that runs to its end can be run tag by tag; only the last tag is REFE. */
  lemma {:induction false} WalkIsTagByTag(stream: seq<u8>, base: u32, t: nat, k: nat)
    requires Walk(stream, base, t).Some? && k < |Walk(stream, base, t).value|
    ensures var rs := Walk(stream, base, t).value;
            FetchTag(stream, base, t + 16 * k) == Tag(rs[k], k == |rs| - 1)
    decreases k
  {
    hide FetchTag;
    if k > 0 {
      WalkIsTagByTag(stream, base, t + 16, k - 1);
    }
  }

  // ---------------------------------------------------------------- a compiled stream

  function HeaderWord(d: Descriptor): u32 {
    Dest(d)
    + (if HasBit(d.attr, ATTR_INT_O) then FLAG_INT_O else 0)
    + (if HasBit(d.attr, ATTR_ERT) then FLAG_ERT else 0)
  }

  function TagWord(last: bool, quads: nat): u32 {
    Wrap32((if last then DMA_TAG_REFE else DMA_TAG_REF) * 0x1000_0000 + quads)
  }

  lemma TagRoundTrip(last: bool, quads: nat)
    requires quads < 0x1_0000
    ensures TagQuads(TagWord(last, quads)) == quads
    ensures TagId(TagWord(last, quads)) == if last then DMA_TAG_REFE else DMA_TAG_REF
  {
  }

  /** One compiled descriptor: its tag and the record the tag points to. */
  datatype Item = Item(off: nat, tag: u32, addr: u32, header: u32, data: seq<u8>)

  ghost function ItemOf(ds: seq<Descriptor>, ee: EeMemory, subaddr: u32, base: u32, i: nat): Item
    requires i < |ds|
  {
    var off := RecordOffset(ds, subaddr, i);
    Item(off, TagWord(i == |ds| - 1, QuadBytes(ds[i], subaddr) / 16 + 1), Wrap32(base + off),
         HeaderWord(ds[i]), Requested(ds[i], ee, subaddr).data)
  }

  /** The item's tag is at `t` and its record at the item's offset. */
  ghost predicate Placed(stream: seq<u8>, t: nat, item: Item) {
    && t + 16 <= |stream| && item.off + 16 + |item.data| <= |stream|
    && Word(stream, t) == item.tag
    && Word(stream, t + 4) == item.addr
    && Word(stream, item.off) == item.header
    && 4 * Word(stream, item.off + 4) == |item.data|
    && stream[item.off + 16..item.off + 16 + |item.data|] == item.data
  }

  lemma {:induction false} OffsetsIncrease(ds: seq<Descriptor>, subaddr: u32, i: nat)
    requires i <= |ds|
    ensures 16 * |ds| <= RecordOffset(ds, subaddr, i) <= RecordOffset(ds, subaddr, |ds|)
    ensures i < |ds| ==>
            RecordOffset(ds, subaddr, i) + 16 + QuadBytes(ds[i], subaddr) == RecordOffset(ds, subaddr, i + 1)
                         <= RecordOffset(ds, subaddr, |ds|)
    decreases |ds| - i
  {
    RecordsFollowTags(ds, subaddr, i);
    if i < |ds| {
      OffsetsIncrease(ds, subaddr, i + 1);
    }
  }

  lemma {:induction false} RecordsFollowTags(ds: seq<Descriptor>, subaddr: u32, i: nat)
    requires i <= |ds|
    ensures 16 * |ds| <= RecordOffset(ds, subaddr, i)
  {
    if i > 0 {
      RecordsFollowTags(ds, subaddr, i - 1);
    }
  }

  lemma HeaderRoundTrip(d: Descriptor)
    ensures HeaderWord(d) % FLAG_INT_O == Dest(d)
    ensures HasBit(HeaderWord(d), FLAG_INT_O) == HasBit(d.attr, ATTR_INT_O)
    ensures HasBit(HeaderWord(d), FLAG_ERT) == HasBit(d.attr, ATTR_ERT)
  {
  }

  lemma PlacedItemFetches(stream: seq<u8>, base: u32, t: nat, item: Item, last: bool)
    requires Placed(stream, t, item)
    requires |item.data| % 16 == 0 && TagQuads(item.tag) == |item.data| / 16 + 1
    requires TagId(item.tag) == if last then DMA_TAG_REFE else DMA_TAG_REF
    requires item.addr == base + item.off
    ensures FetchTag(stream, base, t) == Tag(DecodeRecord(item.header, item.data), last)
  {
    hide Word, TagId, TagQuads, DecodeRecord;
    assert item.off + 16 * (|item.data| / 16 + 1) == item.off + 16 + |item.data|;
  }

  lemma PlacedTagFetches(stream: seq<u8>, ds: seq<Descriptor>, ee: EeMemory, subaddr: u32, base: u32, i: nat)
    requires |stream| == SIF_DMA_JOB_STREAM_SIZE && base + SIF_DMA_JOB_STREAM_SIZE <= PHYS_SPAN
    requires Acceptable(ds, subaddr) && i < |ds|
    requires Placed(stream, 16 * i, ItemOf(ds, ee, subaddr, base, i))
    ensures FetchTag(stream, base, 16 * i) == Tag(Requested(ds[i], ee, subaddr), i == |ds| - 1)
  {
    hide FetchTag, Placed, Word, SourceBytes, RecordOffset, HasBit, TagId, TagQuads, TagWord, HeaderWord;
    OffsetsIncrease(ds, subaddr, i);
    BlockRoundsUp(ds[i], subaddr);
    HeaderRoundTrip(ds[i]);
    TagRoundTrip(i == |ds| - 1, QuadBytes(ds[i], subaddr) / 16 + 1);
    PlacedItemFetches(stream, base, 16 * i, ItemOf(ds, ee, subaddr, base, i), i == |ds| - 1);
  }

  lemma {:induction false} TagsMakeWalk(stream: seq<u8>, base: u32, rs: seq<Record>, i: nat)
    requires i < |rs|
    requires forall j | 0 <= j < |rs| :: FetchTag(stream, base, 16 * j) == Tag(rs[j], j == |rs| - 1)
    ensures Walk(stream, base, 16 * i) == Some(rs[i..])
    decreases |rs| - i
  {
    hide FetchTag;
    assert FetchTag(stream, base, 16 * i) == Tag(rs[i], i == |rs| - 1);
    assert rs[i..] == [rs[i]] + rs[i + 1..];
    if i < |rs| - 1 {
      TagsMakeWalk(stream, base, rs, i + 1);
    } else {
      assert rs[i..] == [rs[i]];
    }
  }

  /** Running a compiled chain delivers exactly what the descriptors asked for, in order. */
  lemma CompiledChainRuns(stream: seq<u8>, ds: seq<Descriptor>, ee: EeMemory, subaddr: u32, base: u32)
    requires |stream| == SIF_DMA_JOB_STREAM_SIZE && base + SIF_DMA_JOB_STREAM_SIZE <= PHYS_SPAN
    requires Acceptable(ds, subaddr)
    requires forall j | 0 <= j < |ds| :: Placed(stream, 16 * j, ItemOf(ds, ee, subaddr, base, j))
    ensures Walk(stream, base, 0) == Some(RequestedAll(ds, ee, subaddr))
  {
    var rs := RequestedAll(ds, ee, subaddr);
    forall j | 0 <= j < |rs|
      ensures FetchTag(stream, base, 16 * j) == Tag(rs[j], j == |rs| - 1)
    {
      PlacedTagFetches(stream, ds, ee, subaddr, base, j);
    }
    TagsMakeWalk(stream, base, rs, 0);
    assert rs[0..] == rs;
  }
}
