/** The callers that queue a transfer and wait for it: `wait_dma_done`, `ee_sif_iop_write`, `ee_sif_send_cmd`. */
module SifTransfers {
  import opened Bytes
  import opened SifStream
  import R = SifRing
  import F = SifFifo
  import opened SifEngine

  const POLL_TIMEOUT := 100_000_000
  const SIF_DMA_MAX_CHUNK := SIF_DMA_JOB_STREAM_SIZE - 32
  const SIF_SEND_ATTR := ATTR_INT_O + ATTR_ERT
  const CMD_PACKET_MAX := 112

  /** The engine seen as a queue. */
  ghost function Queue(e: DmaEngine): (f: F.Fifo)
    requires e.Valid()
    reads e, e.jobs, e.queue, e.streams
    ensures F.Ok(f)
  {
    R.AbsOk(e.State());
    R.Abs(e.State())
  }

  /** IOP memory once everything accepted has been delivered. */
  ghost function Final(e: DmaEngine): F.IopMemory
    requires e.Valid()
    reads e, e.jobs, e.queue, e.streams
  {
    F.Eventually(Queue(e))
  }

  /** Nothing is left to deliver and IOP memory is final. */
  ghost predicate Settled(e: DmaEngine)
    requires e.Valid()
    reads e, e.jobs, e.queue, e.streams
  {
    F.Idle(Queue(e)) && Queue(e).iop == Final(e)
  }

  // ---------------------------------------------------------------- the newest live transfer

  /** Nothing is live, or the newest live transfer has this id. */
  predicate NewestIs(f: F.Fifo, id: int) {
    var l := F.Live(f);
    l != [] ==> l[|l| - 1].id == id
  }

  lemma PumpKeepsNewest(f: F.Fifo, id: int)
    requires NewestIs(f, id)
    ensures NewestIs(F.Pump(f), id)
  {
    var l, r := F.Live(f), F.Live(F.Pump(f));
    assert r == if f.running.Some? && !f.str then l[1..] else l;
  }

  lemma SubmitMakesNewest(f: F.Fifo, q: F.Request)
    requires F.Submit(f, q).1 != 0
    ensures NewestIs(F.Submit(f, q).0, F.Submit(f, q).1)
  {
    var p := F.Pump(f);
    var t := F.Enqueue(p, q.program);
    assert F.Live(t) == F.Live(p) + [F.Transfer(p.nextId, q.program)];
    PumpKeepsNewest(t, p.nextId);
  }

  lemma GoneFromQueue(s: R.Ring, id: int)
    requires R.Inv(s) && id != 0 && R.StatusOf(s.jobs, id, 0) < 0
    ensures forall i | 0 <= i < |F.Live(R.Abs(s))| :: F.Live(R.Abs(s))[i].id != id
  {
    R.NegativeStatus(s.jobs, s.current, id, 0);
    R.LiveSlotsExact(s);
  }

  lemma GoneMeansIdle(s: R.Ring, id: int)
    requires R.Inv(s) && id != 0 && NewestIs(R.Abs(s), id) && R.StatusOf(s.jobs, id, 0) < 0
    ensures F.Idle(R.Abs(s))
  {
    GoneFromQueue(s, id);
    R.AbsOk(s);
    assert F.Live(R.Abs(s)) == [];
  }

  // ---------------------------------------------------------------- waiting

  method OneTag(e: DmaEngine)
    requires e.Valid()
    modifies e
    ensures e.Valid() && e.subaddr == old(e.subaddr)
    ensures Queue(e) == F.ChannelStep(old(Queue(e)))
  {
    hide R.Inv, R.Abs, F.ChannelStep, R.ChannelStep;
    R.ChannelStepRefines(e.State());
    e.ChannelWorks();
  }

  method Poll(e: DmaEngine, trid: i32) returns (gone: bool)
    requires e.Valid() && trid > 0 && NewestIs(Queue(e), trid)
    modifies e, e.jobs
    ensures e.Valid() && e.subaddr == old(e.subaddr)
    ensures Queue(e) == F.Pump(old(Queue(e)))
    ensures gone ==> F.Idle(Queue(e))
  {
    hide R.Inv, R.Abs, R.Pump, R.StatusOf, F.Pump, F.Idle, F.Ok, NewestIs;
    R.PumpRefines(e.State());
    PumpKeepsNewest(Queue(e), trid);
    var status := e.DmaStat(trid);
    gone := status < 0;
    if gone {
      GoneMeansIdle(e.State(), trid);
    }
  }

  method Submit(e: DmaEngine, dmat: array<Descriptor>, n: i32, ee: EeMemory) returns (trid: i32)
    requires e.Valid() && (1 <= n <= SIF_DMA_MAX_DESCS ==> n <= dmat.Length)
    modifies e, e.jobs, e.queue, set b | b in e.streams
    ensures e.Valid() && e.subaddr == old(e.subaddr)
    ensures (Queue(e), trid) == F.Submit(old(Queue(e)), old(Classify(dmat, n, e.subaddr, ee)))
  {
    hide R.Inv, R.Abs, R.SetDma, F.Submit;
    R.SetDmaRefines(e.State(), Classify(dmat, n, e.subaddr, ee));
    F.SubmitId(Queue(e), Classify(dmat, n, e.subaddr, ee));
    trid := e.SetDma(dmat, n, ee);
  }

  /** The channel gets through `n` more records while the EE is between two polls. */
  method ChannelRuns(e: DmaEngine, n: nat, ghost id: int)
    requires e.Valid() && NewestIs(Queue(e), id)
    modifies e
    ensures e.Valid() && e.subaddr == old(e.subaddr)
    ensures Final(e) == old(Final(e))
    ensures NewestIs(Queue(e), id)
  {
    hide F.Eventually, Queue, F.ChannelStep, F.Ok;
    var i := 0;
    while i < n
      invariant e.Valid() && e.subaddr == old(e.subaddr)
      invariant Final(e) == old(Final(e))
      invariant NewestIs(Queue(e), id)
    {
      F.ChannelStepKeepsEventually(Queue(e));
      F.ChannelStepKeepsLive(Queue(e));
      hide e.Valid;
      OneTag(e);
      i := i + 1;
    }
  }

  /** Poll until transfer `trid` is gone. When `trid` was the newest, everything before it is
      gone too and IOP memory is up to date. `progress` says how far the channel gets before
      each poll. */
  method WaitDmaDone(e: DmaEngine, trid: i32, progress: nat -> nat) returns (rc: int)
    requires e.Valid()
    requires trid > 0 ==> NewestIs(Queue(e), trid)
    modifies e, e.jobs
    ensures e.Valid() && e.subaddr == old(e.subaddr)
    ensures Final(e) == old(Final(e))
    ensures rc == 0 || rc == -1
    ensures rc == 0 ==> trid > 0 && Settled(e)
  {
    hide F.Eventually, Queue, F.Pump, F.Ok, NewestIs;
    if trid <= 0 {
      return -1;
    }
    for i := 0 to POLL_TIMEOUT
      invariant e.Valid() && e.subaddr == old(e.subaddr)
      invariant Final(e) == old(Final(e))
      invariant NewestIs(Queue(e), trid)
    {
      ChannelRuns(e, progress(i), trid);
      F.PumpKeepsOutstanding(Queue(e));
      PumpKeepsNewest(Queue(e), trid);
      var gone := Poll(e, trid);
      if gone {
        F.IdleHasDrained(Queue(e));
        return 0;
      }
    }
    return -1;
  }

  // ---------------------------------------------------------------- ee_sif_iop_write

  /** Chunk number `k` of a write. */
  function Chunk(dest: u32, src: u32, size: nat, k: nat): Descriptor
    requires SIF_DMA_MAX_CHUNK * k <= size
  {
    var offset := SIF_DMA_MAX_CHUNK * k;
    var chunk := if size - offset > SIF_DMA_MAX_CHUNK then SIF_DMA_MAX_CHUNK else size - offset;
    Descriptor(Wrap32(src + offset), Wrap32(dest + offset), chunk, 0)
  }

  /** What the first `k` chunks deliver. */
  function Written(dest: u32, src: u32, size: nat, k: nat, ee: EeMemory, subaddr: u32): (rs: seq<Record>)
    requires k == 0 || SIF_DMA_MAX_CHUNK * (k - 1) <= size
    ensures |rs| == k
  {
    if k == 0 then []
    else Written(dest, src, size, k - 1, ee, subaddr) + [Requested(Chunk(dest, src, size, k - 1), ee, subaddr)]
  }

  /** One list is accepted, delivered after everything before it, and waited for. */
  method SubmitAndWait(e: DmaEngine, dmat: array<Descriptor>, n: i32, ee: EeMemory, progress: nat -> nat)
    returns (rc: int, ghost accepted: bool)
    requires e.Valid() && 1 <= n <= SIF_DMA_MAX_DESCS && n <= dmat.Length
    modifies e, e.jobs, e.queue, set b | b in e.streams
    ensures e.Valid() && e.subaddr == old(e.subaddr)
    ensures accepted <==> Acceptable(dmat[..n], e.subaddr) && !F.Full(F.Pump(old(Queue(e))))
    ensures Final(e)
         == if accepted then F.DeliverAll(old(Final(e)), RequestedAll(dmat[..n], ee, e.subaddr))
            else old(Final(e))
    ensures rc == 0 || rc == -1
    ensures rc == 0 ==> accepted && Settled(e)
  {
    hide F.Eventually, Queue, F.Submit, F.Ok, F.Full, F.Pump, NewestIs, F.DeliverAll, Acceptable, RequestedAll, e.Valid;
    ghost var f, q := Queue(e), Classify(dmat, n, e.subaddr, ee);
    F.SubmitIsSequential(f, q);
    if F.Submit(f, q).1 != 0 {
      SubmitMakesNewest(f, q);
    }
    var trid := Submit(e, dmat, n, ee);
    accepted := trid != 0;
    rc := WaitDmaDone(e, trid, progress);
  }

  /** The bytes are in IOP memory, zeros fill up the last quadword, and no other byte has changed. */
  ghost predicate Wrote(was: F.IopMemory, now: F.IopMemory, dest: u32, src: u32, size: u32, ee: EeMemory) {
    var at := dest % PHYS_SPAN;
    forall a | a in was ::
      a in now && now[a] == if at <= a < at + size then ee(Wrap32(src + (a - at)))
                            else if at + size <= a < at + (size + 15) / 16 * 16 then 0 else was[a]
  }

  /** No chunk of the write is addressed to the command buffer. */
  ghost predicate AvoidsCommands(dest: u32, src: u32, size: u32, subaddr: u32) {
    subaddr == 0 || forall j: nat | SIF_DMA_MAX_CHUNK * j < size :: Dest(Chunk(dest, src, size, j)) != subaddr
  }

  /** `ee_sif_iop_write`: `progress(k)` drives the channel while chunk `k` is waited for. The
      first `chunks` chunks were accepted; on success they cover the write and have arrived. */
  method IopWrite(e: DmaEngine, dest: u32, src: u32, size: u32, ee: EeMemory, progress: nat -> nat -> nat)
    returns (rc: int, ghost chunks: nat)
    requires e.Valid()
    modifies e, e.jobs, e.queue, set b | b in e.streams
    ensures e.Valid() && e.subaddr == old(e.subaddr)
    ensures rc == 0 || rc == -1
    ensures chunks == 0 || SIF_DMA_MAX_CHUNK * (chunks - 1) < size
    ensures Final(e)
         == F.DeliverAll(old(Final(e)), Written(dest, src, size, chunks, ee, e.subaddr))
    ensures rc == 0 ==> SIF_DMA_MAX_CHUNK * chunks >= size
    ensures rc == 0 && size > 0 ==> Settled(e)
    ensures rc == 0 && InRange(dest, src, size) && AvoidsCommands(dest, src, size, e.subaddr) ==>
              Wrote(old(Final(e)), Final(e), dest, src, size, ee)
  {
    hide e.Valid, Final, Queue, Settled, F.DeliverAll, Acceptable, Chunk, Requested;
    hide Wrote, AvoidsCommands, InRange;
    F.DeliverNothing(Final(e));
    ghost var was := Final(e);
    if size == 0 {
      NothingWritten(was, dest, src, ee);
      return 0, 0;
    }
    var dmat := new Descriptor[1](_ => Descriptor(0, 0, 0, 0));
    var k: nat := 0;
    while SIF_DMA_MAX_CHUNK * k < size
      invariant e.Valid() && e.subaddr == old(e.subaddr)
      invariant k == 0 || SIF_DMA_MAX_CHUNK * (k - 1) < size
      invariant Final(e)
             == F.DeliverAll(old(Final(e)), Written(dest, src, size, k, ee, e.subaddr))
      invariant k > 0 ==> Settled(e)
      decreases size - SIF_DMA_MAX_CHUNK * k
    {
      dmat[0] := Chunk(dest, src, size, k);
      ghost var accepted;
      rc, accepted := WriteChunk(e, dmat, dest, src, size, k, ee, progress(k), old(Final(e)));
      if rc < 0 {
        return -1, if accepted then k + 1 else k;
      }
      k := k + 1;
    }
    WriteArrives(was, dest, src, size, k, ee, e.subaddr);
    return 0, k;
  }

  method WriteChunk(e: DmaEngine, dmat: array<Descriptor>, dest: u32, src: u32, size: u32, k: nat, ee: EeMemory,
                    progress: nat -> nat, ghost m: F.IopMemory)
    returns (rc: int, ghost accepted: bool)
    requires e.Valid() && SIF_DMA_MAX_CHUNK * k < size
    requires dmat.Length == 1 && dmat[0] == Chunk(dest, src, size, k)
    requires Final(e) == F.DeliverAll(m, Written(dest, src, size, k, ee, e.subaddr))
    modifies e, e.jobs, e.queue, set b | b in e.streams
    ensures e.Valid() && e.subaddr == old(e.subaddr)
    ensures Final(e)
         == F.DeliverAll(m, Written(dest, src, size, if accepted then k + 1 else k, ee, e.subaddr))
    ensures rc == 0 || rc == -1
    ensures rc == 0 ==> accepted && Settled(e)
  {
    hide e.Valid, Final, Queue, Settled, F.DeliverAll, Acceptable, Chunk, Requested;
    ghost var w := Written(dest, src, size, k, ee, e.subaddr);
    ghost var ds := dmat[..1];
    assert ds == [Chunk(dest, src, size, k)];
    assert RequestedAll(ds, ee, e.subaddr) == [Requested(Chunk(dest, src, size, k), ee, e.subaddr)];
    F.DeliverInParts(m, w, RequestedAll(ds, ee, e.subaddr));
    rc, accepted := SubmitAndWait(e, dmat, 1, ee, progress);
  }

  // ---------------------------------------------------------------- the chunks are one copy

  function Quads(n: nat): nat {
    (n + 15) / 16 * 16
  }

  /** Bytes written by the first `k` chunks. */
  function Covered(size: nat, k: nat): nat {
    if SIF_DMA_MAX_CHUNK * k < size then SIF_DMA_MAX_CHUNK * k else size
  }

  lemma PaddingAppends(a: seq<u8>, b: seq<u8>)
    requires |a| % 16 == 0
    ensures a + PadTo(b, Quads(|b|)) == PadTo(a + b, Quads(|a| + |b|))
  {
    assert Quads(|a| + |b|) == |a| + Quads(|b|);
  }

  lemma SourceSplits(ee: EeMemory, src: u32, a: nat, b: nat)
    requires src + a < 0x1_0000_0000
    ensures SourceBytes(ee, src, a + b) == SourceBytes(ee, src, a) + SourceBytes(ee, src + a, b)
  {
  }

  lemma AddressAdvances(dest: u32, at: nat)
    requires dest % PHYS_SPAN + at < PHYS_SPAN
    ensures Wrap32(dest + at) % PHYS_SPAN == dest % PHYS_SPAN + at
  {
    var page := dest / PHYS_SPAN;
    assert dest == PHYS_SPAN * page + dest % PHYS_SPAN && page < 8;
    assert dest + at == PHYS_SPAN * page + (dest % PHYS_SPAN + at) < 0x1_0000_0000;
  }

  /** The write stays inside both address spaces. */
  predicate InRange(dest: u32, src: u32, size: u32) {
    (dest as int) % PHYS_SPAN + size + 15 < PHYS_SPAN && (src as int) + size < 0x1_0000_0000
  }

  lemma PlainQuads(d: Descriptor, subaddr: u32)
    requires 0 <= d.size <= SIF_DMA_MAX_CHUNK && (subaddr == 0 || Dest(d) != subaddr)
    ensures QuadBytes(d, subaddr) == Quads(d.size)
  {
  }

  lemma ChunkFields(dest: u32, src: u32, size: u32, k: nat, subaddr: u32)
    requires SIF_DMA_MAX_CHUNK * k < size
    requires subaddr == 0 || Dest(Chunk(dest, src, size, k)) != subaddr
    ensures var d := Chunk(dest, src, size, k);
            d.src == Wrap32(src + SIF_DMA_MAX_CHUNK * k) && d.dest == Wrap32(dest + SIF_DMA_MAX_CHUNK * k)
                && d.attr == 0
            && 0 < d.size == Covered(size, k + 1) - SIF_DMA_MAX_CHUNK * k
            && QuadBytes(d, subaddr) == Quads(d.size)
  {
    hide QuadBytes, Quads, Wrap32, Dest;
    PlainQuads(Chunk(dest, src, size, k), subaddr);
  }

  lemma ChunkShape(dest: u32, src: u32, size: u32, k: nat, ee: EeMemory, subaddr: u32)
    requires InRange(dest, src, size) && SIF_DMA_MAX_CHUNK * k < size
    requires subaddr == 0 || Dest(Chunk(dest, src, size, k)) != subaddr
    ensures src + SIF_DMA_MAX_CHUNK * k < 0x1_0000_0000
    ensures Requested(Chunk(dest, src, size, k), ee, subaddr)
         == ChunkRecord(dest, src, k, Covered(size, k + 1) - SIF_DMA_MAX_CHUNK * k, ee)
  {
    hide SourceBytes, PadTo, Chunk, Wrap32, QuadBytes, Covered, Quads;
    AddressAdvances(dest, SIF_DMA_MAX_CHUNK * k);
    ChunkFields(dest, src, size, k, subaddr);
  }

  function ChunkRecord(dest: u32, src: u32, k: nat, n: nat, ee: EeMemory): Record {
    Record(dest % PHYS_SPAN + SIF_DMA_MAX_CHUNK * k, false, false,
           PadTo(SourceBytes(ee, Wrap32(src + SIF_DMA_MAX_CHUNK * k), n), Quads(n)))
  }

  function OneCopy(dest: u32, src: u32, n: nat, ee: EeMemory): Record {
    Record(dest % PHYS_SPAN, false, false, PadTo(SourceBytes(ee, src, n), Quads(n)))
  }

  lemma FirstChunk(dest: u32, src: u32, n: nat, ee: EeMemory)
    ensures ChunkRecord(dest, src, 0, n, ee) == OneCopy(dest, src, n, ee)
  {
    assert Wrap32(src) == src;
  }

  lemma WholeQuads(q: nat)
    ensures 16 * q % 16 == 0 && Quads(16 * q) == 16 * q
  {
    assert (16 * q + 15) / 16 == q;
  }

  lemma Fits(x: u32)
    ensures Wrap32(x) == x
  {
  }

  lemma ChunkStart(src: u32, k: nat)
    requires src + SIF_DMA_MAX_CHUNK * k < 0x1_0000_0000
    ensures var at := SIF_DMA_MAX_CHUNK * k; at % 16 == 0 && Quads(at) == at && Wrap32(src + at) == src + at
  {
    hide Quads, Wrap32;
    WholeQuads(62 * k);
    Fits(src + SIF_DMA_MAX_CHUNK * k);
    assert SIF_DMA_MAX_CHUNK * k == 16 * (62 * k);
  }

  lemma CopyExtends(m: F.IopMemory, dest: u32, src: u32, k: nat, n: nat, ee: EeMemory)
    requires src + SIF_DMA_MAX_CHUNK * k < 0x1_0000_0000
    ensures F.Deliver(F.Deliver(m, OneCopy(dest, src, SIF_DMA_MAX_CHUNK * k, ee)), ChunkRecord(dest, src, k, n, ee))
         == F.Deliver(m, OneCopy(dest, src, SIF_DMA_MAX_CHUNK * k + n, ee))
  {
    hide F.Deliver, Wrap32, Quads, SourceBytes;
    var at := SIF_DMA_MAX_CHUNK * k;
    ChunkStart(src, k);
    var head, tail := SourceBytes(ee, src, at), SourceBytes(ee, src + at, n);
    SourceSplits(ee, src, at, n);
    PaddingAppends(head, tail);
    assert OneCopy(dest, src, at, ee).data == head;
    F.AdjacentDeliveries(m, dest % PHYS_SPAN, head, ChunkRecord(dest, src, k, n, ee));
  }

  /** When no chunk lands on the command buffer and the range does not wrap, the chunks amount
      to one copy, padded with zeros to a quadword. */
  lemma {:induction false} ChunksAreOneCopy(m: F.IopMemory, dest: u32, src: u32, size: u32, k: nat, ee: EeMemory,
      subaddr: u32)
    requires InRange(dest, src, size) && 0 < k && SIF_DMA_MAX_CHUNK * (k - 1) < size
    requires subaddr == 0 || forall j | 0 <= j < k :: Dest(Chunk(dest, src, size, j)) != subaddr
    ensures F.DeliverAll(m, Written(dest, src, size, k, ee, subaddr))
         == F.Deliver(m, OneCopy(dest, src, Covered(size, k), ee))
    decreases k
  {
    hide Chunk, Requested, F.Deliver, F.DeliverAll, OneCopy, ChunkRecord, InRange, Dest;
    ChunkShape(dest, src, size, k - 1, ee, subaddr);
    var n := Covered(size, k) - SIF_DMA_MAX_CHUNK * (k - 1);
    var last := ChunkRecord(dest, src, k - 1, n, ee);
    LastChunk(m, dest, src, size, k, ee, subaddr, last);
    if k == 1 {
      FirstChunk(dest, src, n, ee);
      F.DeliverNothing(m);
    } else {
      ChunksAreOneCopy(m, dest, src, size, k - 1, ee, subaddr);
      CopyExtends(m, dest, src, k - 1, n, ee);
    }
  }

  lemma NothingWritten(m: F.IopMemory, dest: u32, src: u32, ee: EeMemory)
    ensures Wrote(m, m, dest, src, 0, ee)
  {
  }

  lemma OneCopyWrites(m: F.IopMemory, dest: u32, src: u32, size: u32, ee: EeMemory)
    ensures Wrote(m, F.Deliver(m, OneCopy(dest, src, size, ee)), dest, src, size, ee)
  {
    var r := OneCopy(dest, src, size, ee);
    assert forall k | 0 <= k < |r.data| :: r.data[k] == if k < size then ee(Wrap32((src as int) + k)) else 0;
  }

  /** A write whose chunks were all accepted has put its bytes into IOP memory. */
  lemma WriteArrives(m: F.IopMemory, dest: u32, src: u32, size: u32, k: nat, ee: EeMemory, subaddr: u32)
    requires 0 < k && SIF_DMA_MAX_CHUNK * (k - 1) < size <= SIF_DMA_MAX_CHUNK * k
    ensures InRange(dest, src, size) && AvoidsCommands(dest, src, size, subaddr) ==>
              Wrote(m, F.DeliverAll(m, Written(dest, src, size, k, ee, subaddr)), dest, src, size, ee)
  {
    hide InRange, Written, OneCopy, F.Deliver, F.DeliverAll, Wrote, Chunk, Dest;
    if InRange(dest, src, size) && AvoidsCommands(dest, src, size, subaddr) {
      assert forall j | 0 <= j < k :: SIF_DMA_MAX_CHUNK * j < size;
      ChunksAreOneCopy(m, dest, src, size, k, ee, subaddr);
      OneCopyWrites(m, dest, src, size, ee);
    }
  }

  lemma LastChunk(m: F.IopMemory, dest: u32, src: u32, size: u32, k: nat, ee: EeMemory, subaddr: u32, last: Record)
    requires 0 < k && SIF_DMA_MAX_CHUNK * (k - 1) < size
             && last == Requested(Chunk(dest, src, size, k - 1), ee, subaddr)
    ensures F.DeliverAll(m, Written(dest, src, size, k, ee, subaddr))
         == F.Deliver(F.DeliverAll(m, Written(dest, src, size, k - 1, ee, subaddr)), last)
  {
    hide Chunk, Requested, F.Deliver, F.DeliverAll;
    var w := Written(dest, src, size, k - 1, ee, subaddr);
    F.DeliverInParts(m, w, [last]);
    F.DeliverAll1(F.DeliverAll(m, w), last);
  }
}
