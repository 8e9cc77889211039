/**
 The SIF1 transmit engine of `ee_sif.c`: its static job array, stream buffers and ring, the
 entry points that update them, and the DMA channel that runs beside them.
 */
module SifEngine {
  import opened Bytes
  import opened SifStream
  import opened SifBuilder
  import opened R = SifRing
  import F = SifFifo

  datatype JobSlot = JobSlot(id: int, streamSize: nat, phase: Phase)

  const FREE_SLOT := JobSlot(0, 0, Free)

  /** How the ring of SifRing sees a descriptor list passed to `SetDma`. */
  ghost function Classify(dmat: array?<Descriptor>, count: i32, subaddr: u32, ee: EeMemory): (q: F.Request)
    requires dmat != null && 1 <= count <= SIF_DMA_MAX_DESCS ==> count <= dmat.Length
    reads dmat
    ensures F.RequestOk(q)
    ensures q.BadArguments? <==> dmat == null || count < 1 || count > 8
    ensures q.Compiles? <==> dmat != null && 1 <= count <= 8 && Acceptable(dmat[..count], subaddr)
  {
    if dmat == null || count <= 0 || count > SIF_DMA_MAX_DESCS then F.BadArguments
    else if !Acceptable(dmat[..count], subaddr) then F.Unbuildable
    else
      var rs := RequestedAll(dmat[..count], ee, subaddr);
      assert |rs| == count;
      F.Compiles(rs)
  }

  class DmaEngine {
    const streams: seq<array<u8>>
    const bases: seq<u32>  // physical addresses of the stream buffers
    const jobs: array<JobSlot>
    const queue: array<u8>
    var subaddr: u32  // where IOP command packets go; 0 until it is known
    var head: u32
    var tail: u32
    var count: u32
    var nextId: u32
    var current: i32

    // The channel: D6_CHCR.STR, the buffer D6_TADR points to, tags done, and what the IOP got.
    var str: bool
    var chain: nat
    var delivered: nat
    ghost var iop: F.IopMemory

    ghost predicate Buffers()
    {
      && |streams| == |bases| == DEPTH
      && (forall i | 0 <= i < DEPTH :: streams[i].Length == SIF_DMA_JOB_STREAM_SIZE)
      && (forall i | 0 <= i < DEPTH :: bases[i] + SIF_DMA_JOB_STREAM_SIZE <= PHYS_SPAN)
      && (forall i, j | 0 <= i < j < DEPTH :: streams[i] != streams[j])
      && (forall i | 0 <= i < DEPTH :: streams[i] != queue)
      && jobs.Length == queue.Length == DEPTH
    }

    ghost function Program(i: nat): seq<Record>
      requires Buffers() && i < DEPTH
      reads streams[i]
    {
      match Walk(streams[i][..], bases[i], 0)
      case None => []
      case Some(rs) => rs
    }

    ghost function Slot(i: nat): Job
      requires Buffers() && i < DEPTH
      reads jobs, streams[i]
    {
      Job(jobs[i].id, jobs[i].phase, if jobs[i].phase == Free then [] else Program(i))
    }

    /** The job table as SifRing sees it. */
    ghost function Jobs(): (js: seq<Job>)
      requires Buffers()
      reads jobs, streams
      ensures |js| == DEPTH && forall i | 0 <= i < DEPTH :: js[i] == Slot(i)
    {
      seq(DEPTH, i requires 0 <= i < DEPTH reads jobs, streams => Slot(i))
    }

    ghost function State(): Ring
      requires Buffers()
      reads this, jobs, queue, streams
    {
      Ring(Jobs(), queue[..], head, tail, count, nextId, current, str, delivered, iop)
    }

    /** A slot that is not free holds a chain the channel can run to its end. */
    ghost predicate Runnable()
      requires Buffers()
      reads jobs, streams
    {
      forall i | 0 <= i < DEPTH && jobs[i].phase != Free :: Walk(streams[i][..], bases[i], 0).Some?
    }

    ghost predicate Valid()
      reads this, jobs, queue, streams
    {
      && Buffers()
      && Inv(State())
      && Runnable()
      && (str ==> chain == current)
    }

    lemma RunningChain()
      requires Valid() && str
      ensures 0 <= current < DEPTH && chain == current && chain < |streams| && chain < |bases|
      ensures var p := State().jobs[current].program;
              delivered < |p|
              && FetchTag(streams[chain][..], bases[chain], 16 * delivered) == Tag(p[delivered], delivered == |p| - 1)
    {
      var s := State();
      assert s.jobs[current] == Slot(current) && s.jobs[current].phase == Running;
      hide Inv, Walk, FetchTag;
      assert Walk(streams[chain][..], bases[chain], 0).Some?;
      WalkIsTagByTag(streams[chain][..], bases[chain], 0, delivered);
    }

    /** `ee_sif_reset_state`: an empty ring, whatever was in the buffers. */
    method ResetState()
      requires Buffers() && !str
      modifies this`subaddr, this`head, this`tail, this`count, this`nextId, this`current, jobs, queue
      ensures Valid() && subaddr == 0
      ensures Abs(State()) == F.Initial(iop).f
    {
      for i := 0 to DEPTH
        invariant forall k | 0 <= k < i :: jobs[k] == FREE_SLOT && queue[k] == 0
      {
        jobs[i] := FREE_SLOT;
        queue[i] := 0;
      }
      head, tail, count, nextId, current, subaddr := 0, 0, 0, 1, -1, 0;
      assert forall i | 0 <= i < DEPTH :: Slot(i) == FREE_JOB;
      hide Inv, Abs, Slot;
      EmptyRing(State());
    }

    /** Only slot `slot` and its stream buffer changed. */
    twostate predicate OnlySlotChanged(slot: nat)
      requires Buffers() && slot < DEPTH
      reads jobs, streams
    {
      forall i | 0 <= i < DEPTH && i != slot :: jobs[i] == old(jobs[i]) && streams[i][..] == old(streams[i][..])
    }

    twostate lemma OtherSlotsKept(slot: nat)
      requires Buffers() && slot < DEPTH && OnlySlotChanged(slot)
      requires old(Runnable()) && (jobs[slot].phase != Free ==> Walk(streams[slot][..], bases[slot], 0).Some?)
      ensures Jobs() == old(Jobs())[slot := Slot(slot)]
      ensures Runnable()
    {
      hide Walk;
      forall i | 0 <= i < DEPTH && i != slot
        ensures Slot(i) == old(Slot(i))
      {
        assert jobs[i] == old(jobs[i]) && streams[i][..] == old(streams[i][..]);
      }
    }

    /** The channel fetches one tag, delivers its record, and stops after the REFE tag. */
    method ChannelWorks()
      requires Valid()
      modifies this`str, this`delivered, this`iop
      ensures Valid()
      ensures State() == ChannelStep(old(State()))
    {
      hide Inv, Walk, FetchTag, F.Deliver, Jobs, Slot, Runnable;
      if str {
        ghost var s := State();
        RunningChain();
        ChannelStepRefines(s);
        match FetchTag(streams[chain][..], bases[chain], 16 * delivered) {
          case Tag(r, last) =>
            iop := F.Deliver(iop, r);
            str, delivered := !last, delivered + 1;
          case Fault =>
            assert false;
        }
      }
    }

    method StartDmaJob(slot: nat)
      requires Buffers() && Runnable() && slot < DEPTH && jobs[slot].phase == Queued
      modifies this`str, this`chain, this`delivered, this`current, jobs
      ensures Runnable() && chain == slot
      ensures var s := old(State());
              State() == s.(jobs := s.jobs[slot := s.jobs[slot].(phase := Running)], current := slot, str := true,
                  delivered := 0)
    {
      hide Walk;
      chain, delivered, str := slot, 0, true;
      jobs[slot] := jobs[slot].(phase := Running);
      current := slot;
      OtherSlotsKept(slot);
    }

    lemma ValidShape()
      requires Valid()
      ensures Shape(State())
    {
    }

    method RetireJob()
      requires Valid() && current >= 0 && !str
      modifies this`current, jobs
      ensures Valid() && current < 0
      ensures State() == Retire(old(State()))
      ensures head == old(head) && count == old(count) && queue[..] == old(queue[..])
    {
      hide Inv, Walk, Jobs;
      ValidShape();
      RetireRefines(State());
      ghost var slot := current;
      jobs[current] := FREE_SLOT;
      current := -1;
      OtherSlotsKept(slot);
    }

    lemma NextJob()
      requires Valid() && current < 0 && count > 0
      ensures 0 <= head < DEPTH && 0 <= queue[head] < DEPTH && jobs[queue[head]].phase == Queued
      ensures Inv(StartNext(State()))
    {
      var s := State();
      HeadIsFirst(s.slots, s.head, s.count);
      assert W(s)[0] == s.slots[s.head] == queue[head];
      assert s.jobs[queue[head]] == Slot(queue[head]);
      StartNextRefines(s);
    }

    method StartNextJob()
      requires Valid() && current < 0 && count > 0
      modifies this`str, this`chain, this`delivered, this`current, this`head, this`count, jobs
      ensures Valid()
      ensures State() == StartNext(old(State()))
    {
      hide Inv, Slot, Jobs, Walk, Runnable, StartNext;
      ValidShape();
      NextJob();
      ghost var s := State();
      var slot := queue[head];
      head := (head + 1) % DEPTH;
      count := count - 1;
      StartDmaJob(slot);
      StartedAs(s, State());
    }

    method Pump()
      requires Valid()
      modifies this`str, this`chain, this`delivered, this`current, this`head, this`count, jobs
      ensures Valid()
      ensures State() == R.Pump(old(State()))
    {
      if current >= 0 {
        if str {
          return;
        }
        RetireJob();
      }
      if current < 0 && count > 0 && !str {
        StartNextJob();
      }
    }

    method FindFreeDmaJob() returns (slot: i32)
      requires Valid()
      ensures slot == FindFree(State().jobs, 0)
    {
      hide Inv, Walk;
      ghost var js := State().jobs;
      for i := 0 to DEPTH
        invariant FindFree(js, 0) == FindFree(js, i)
      {
        assert js[i] == Slot(i);
        if jobs[i].phase == Free {
          return i;
        }
      }
      return -1;
    }

    method NextDmaId() returns (id: u32)
      requires 1 <= nextId <= F.MAX_ID
      modifies this`nextId
      ensures id == old(nextId) && nextId == F.NextIdAfter(old(nextId)) && 1 <= nextId <= F.MAX_ID
    {
      id := nextId;
      nextId := Wrap32(nextId + 1);
      if nextId == 0 || nextId > 0x7fff_ffff {
        nextId := 1;
      }
    }

    /** Reserve a free slot and compile the list into it; a list that does not compile leaves
        nothing behind but scribbles in a free buffer. */
    method CompileInto(slot: nat, id: u32, dmat: array<Descriptor>, n: i32, ee: EeMemory) returns (rc: int)
      requires Buffers() && Runnable() && slot < DEPTH && jobs[slot].phase == Free
      requires 1 <= n <= SIF_DMA_MAX_DESCS && n <= dmat.Length && 1 <= id <= F.MAX_ID
      modifies jobs, streams[slot]
      ensures Runnable() && (rc == 0 || rc == -1)
      ensures rc == 0 <==> Acceptable(dmat[..n], subaddr)
      ensures var s := old(State());
              State() == s.(jobs := s.jobs[slot := if rc == 0
                  then Job(id, Queued, RequestedAll(dmat[..n], ee, subaddr)) else FREE_JOB])
    {
      hide Walk, Acceptable, RequestedAll;
      jobs[slot] := JobSlot(id, 0, Queued);
      var size;
      rc, size := BuildDmaJob(streams[slot], bases[slot], dmat, n, subaddr, ee);
      if rc < 0 {
        jobs[slot] := FREE_SLOT;
      } else {
        jobs[slot] := jobs[slot].(streamSize := size);
      }
      hide Slot;
      assert OnlySlotChanged(slot);
      OtherSlotsKept(slot);
    }

    /** Take the next id and compile the list into the free slot under it. */
    method ReserveJob(slot: nat, dmat: array<Descriptor>, n: i32, ee: EeMemory) returns (rc: int, id: u32)
      requires Valid() && slot < DEPTH && State().jobs[slot].phase == Free
      requires 1 <= n <= SIF_DMA_MAX_DESCS && n <= dmat.Length
      modifies this`nextId, jobs, streams[slot]
      ensures Runnable() && id == old(nextId)
      ensures (rc == 0 || rc == -1) && (rc == 0 <==> Acceptable(dmat[..n], subaddr))
      ensures var p := old(State());
              State() == if rc == 0 then
                           p.(jobs := p.jobs[slot := Job(p.nextId, Queued, RequestedAll(dmat[..n], ee, subaddr))],
                              nextId := F.NextIdAfter(p.nextId))
                         else R.BurnId(p)
    {
      hide Inv, Walk, Acceptable, RequestedAll, Slot, Jobs;
      FreeSlotIsBlank(slot);
      id := NextDmaId();
      rc := CompileInto(slot, id, dmat, n, ee);
    }

    method AcceptJob(slot: nat, dmat: array<Descriptor>, n: i32, ee: EeMemory) returns (trid: int)
      requires Valid() && slot < DEPTH && count < DEPTH && State().jobs[slot].phase == Free
      requires 1 <= n <= SIF_DMA_MAX_DESCS && n <= dmat.Length
      modifies this, jobs, queue, streams[slot]
      ensures Valid() && subaddr == old(subaddr)
      ensures var r := Accept(old(State()), slot, old(Classify(dmat, n, subaddr, ee)));
              State() == r.0 && trid == r.1
    {
      hide Inv, Walk, Acceptable, RequestedAll, Slot, Jobs, R.Pump, Enqueue, Runnable;
      ghost var p, q := State(), Classify(dmat, n, subaddr, ee);
      AcceptRefines(p, slot, q);
      var rc, id := ReserveJob(slot, dmat, n, ee);
      if rc < 0 {
        return 0;
      }
      CommitJob(p, slot, q.program);
      return id;
    }

    lemma FreeSlotIsBlank(slot: nat)
      requires Valid() && slot < DEPTH && State().jobs[slot].phase == Free
      ensures Shape(State()) && State().jobs[slot] == FREE_JOB && jobs[slot].phase == Free
      ensures State().jobs[slot := FREE_JOB] == State().jobs
    {
    }

    /** Put the compiled slot at the tail of the ring and pump. */
    method CommitJob(ghost p: Ring, slot: nat, ghost program: seq<Record>)
      requires Buffers() && Runnable() && (str ==> chain == current)
      requires slot < DEPTH == |p.jobs| && p.jobs[slot].phase == Free && p.count < DEPTH && program != []
      requires State() == p.(jobs := p.jobs[slot := Job(p.nextId, Queued, program)], nextId := F.NextIdAfter(p.nextId))
      requires Inv(p)
      modifies this`tail, this`count, this`str, this`chain, this`delivered, this`current, this`head, jobs, queue
      ensures Valid()
      ensures State() == Commit(p, slot, program)
    {
      hide QueueIsExact, SlotsOk, ChannelOk, Waiting, Jobs, R.Pump;
      EnqueueRefines(p, slot, program);
      assert Shape(p);
      hide Inv;
      PushQueue(slot);
      assert State() == Enqueue(p, slot, program);
      hide Enqueue;
      BackToValid();
      Pump();
    }

    lemma BackToValid()
      requires Buffers() && Inv(State()) && Runnable() && (str ==> chain == current)
      ensures Valid()
    {
    }

    method PushQueue(slot: nat)
      requires Buffers() && slot < DEPTH && tail < DEPTH && count < DEPTH
      modifies this`tail, this`count, queue
      ensures var s := old(State());
              State() == s.(slots := s.slots[s.tail := slot], tail := (s.tail + 1) % DEPTH, count := s.count + 1)
      ensures old(Runnable()) ==> Runnable()
    {
      hide Slot, Walk;
      queue[tail] := slot;
      tail := (tail + 1) % DEPTH;
      count := count + 1;
    }

    method SetDma(dmat: array?<Descriptor>, n: i32, ee: EeMemory) returns (trid: int)
      requires Valid()
      requires dmat != null && 1 <= n <= SIF_DMA_MAX_DESCS ==> n <= dmat.Length
      modifies this, jobs, queue, set b | b in streams
      ensures Valid() && subaddr == old(subaddr)
      ensures (State(), trid) == R.SetDma(old(State()), old(Classify(dmat, n, subaddr, ee)))
    {
      hide QueueIsExact, SlotsOk, ChannelOk, Waiting, Jobs, R.Pump, Runnable, Accept, R.BurnId, Enqueue, Abs, FindFree,
        F.Pump, F.Full, Slot, Program, Acceptable;
      Pump();
      if dmat == null || n <= 0 || n > SIF_DMA_MAX_DESCS {
        return 0;
      }
      FullMeansNoFreeSlot(State());
      if count >= DEPTH {
        return 0;
      }
      var slot := FindFreeDmaJob();
      if slot < 0 {
        return 0;
      }
      trid := AcceptJob(slot, dmat, n, ee);
    }

    /** 1 queued, 0 running, -1 neither; pumps first. */
    method DmaStat(trid: i32) returns (status: int)
      requires Valid()
      modifies this`str, this`chain, this`delivered, this`current, this`head, this`count, jobs
      ensures Valid()
      ensures State() == if trid == 0 then old(State()) else R.Pump(old(State()))
      ensures status == if trid == 0 then -1 else StatusOf(State().jobs, Wrap32(trid), 0)
    {
      hide Inv, R.Pump, StatusOf, Jobs, Runnable;
      var id := Wrap32(trid);
      if id == 0 {
        return -1;
      }
      Pump();
      status := ScanStatus(id);
    }

    method ScanStatus(id: u32) returns (status: int)
      requires Valid()
      ensures status == StatusOf(State().jobs, id, 0)
    {
      hide Inv, Walk;
      ghost var js := State().jobs;
      for i := 0 to DEPTH
        invariant StatusOf(js, id, 0) == StatusOf(js, id, i)
      {
        assert js[i] == Slot(i);
        if jobs[i].id == id {
          return if jobs[i].phase == Queued then 1 else if jobs[i].phase == Running then 0 else -1;
        }
      }
      return -1;
    }
  }
}
