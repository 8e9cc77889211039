/**
 The static state of the SIF1 job queue in `ee_sif.c` - eight job slots, a ring of slot
 numbers with head, tail and count, the slot the channel works on - and the proof that it
 refines the queue of SifFifo.
 */
module SifRing {
  import opened Bytes
  import opened SifStream
  import F = SifFifo

  const DEPTH := F.SIF_DMA_QUEUE_DEPTH

  datatype Phase = Free | Queued | Running

  /** `program` is what the slot's compiled stream makes the channel deliver. */
  datatype Job = Job(id: int, phase: Phase, program: seq<Record>)

  datatype Ring = Ring(jobs: seq<Job>, slots: seq<int>, head: int, tail: int, count: int, nextId: int,
                       current: int, str: bool, delivered: nat, iop: F.IopMemory)

  const FREE_JOB := Job(0, Free, [])

  predicate Shape(s: Ring) {
    && |s.jobs| == |s.slots| == DEPTH
    && 0 <= s.head < DEPTH
    && 0 <= s.count <= DEPTH
    && s.tail == (s.head + s.count) % DEPTH
    && -1 <= s.current < DEPTH
    && 1 <= s.nextId <= F.MAX_ID
  }

  /** The queued slots, next one first. */
  function Waiting(slots: seq<int>, head: int, count: int): (w: seq<int>)
    requires |slots| == DEPTH && 0 <= head && 0 <= count
    ensures |w| == count
  {
    seq(count, j requires 0 <= j < count => slots[(head + j) % DEPTH])
  }

  function W(s: Ring): (w: seq<int>)
    requires Shape(s)
    ensures |w| == s.count
  {
    Waiting(s.slots, s.head, s.count)
  }

  /** The waiting slots are distinct and are exactly the QUEUED ones. */
  ghost predicate QueueIsExact(jobs: seq<Job>, w: seq<int>) {
    && (forall i | 0 <= i < |w| :: 0 <= w[i] < |jobs| && jobs[w[i]].phase == Queued)
    && Distinct(w)
    && (forall k | 0 <= k < |jobs| && jobs[k].phase == Queued :: k in w)
  }

  ghost predicate JobOk(j: Job) {
    if j.phase == Free then j == FREE_JOB else 1 <= j.id <= F.MAX_ID && j.program != []
  }

  ghost predicate SlotsOk(jobs: seq<Job>, current: int) {
    && (forall k | 0 <= k < |jobs| :: jobs[k].phase == Running <==> k == current)
    && (forall k | 0 <= k < |jobs| :: JobOk(jobs[k]))
  }

  ghost predicate ChannelOk(s: Ring)
    requires Shape(s)
  {
    if s.current < 0 then !s.str
    else if s.str then s.delivered < |s.jobs[s.current].program|
    else s.delivered == |s.jobs[s.current].program|
  }

  ghost predicate Inv(s: Ring) {
    && Shape(s)
    && QueueIsExact(s.jobs, W(s))
    && SlotsOk(s.jobs, s.current)
    && ChannelOk(s)
  }

  // ---------------------------------------------------------------- operations

  function Retire(s: Ring): Ring
    requires Shape(s)
  {
    if s.current >= 0 && !s.str then s.(jobs := s.jobs[s.current := FREE_JOB], current := -1) else s
  }

  function StartNext(s: Ring): Ring
    requires Shape(s)
  {
    if s.current < 0 && s.count > 0 && 0 <= s.slots[s.head] < DEPTH then
      var slot := s.slots[s.head];
      s.(jobs := s.jobs[slot := s.jobs[slot].(phase := Running)], head := (s.head + 1) % DEPTH,
         count := s.count - 1, current := slot, str := true, delivered := 0)
    else s
  }

  /** What starting the head of the ring comes to. */
  lemma StartedAs(s: Ring, t: Ring)
    requires Shape(s) && s.current < 0 && s.count > 0 && 0 <= s.slots[s.head] < DEPTH
    requires var slot := s.slots[s.head];
             t == s.(jobs := s.jobs[slot := s.jobs[slot].(phase := Running)], head := (s.head + 1) % DEPTH,
                 count := s.count - 1, current := slot, str := true, delivered := 0)
    ensures t == StartNext(s)
  {
  }

  function Pump(s: Ring): Ring
    requires Shape(s)
  {
    StartNext(Retire(s))
  }

  /** The lowest free slot from `from` on, or -1. */
  function FindFree(jobs: seq<Job>, from: nat): (slot: int)
    requires from <= |jobs|
    ensures -1 <= slot < |jobs| && (slot >= 0 ==> from <= slot)
    ensures slot >= 0 ==> jobs[slot].phase == Free
    ensures forall k | from <= k < (if slot < 0 then |jobs| else slot) :: jobs[k].phase != Free
    decreases |jobs| - from
  {
    if from == |jobs| then -1 else if jobs[from].phase == Free then from else FindFree(jobs, from + 1)
  }

  function Enqueue(s: Ring, slot: int, program: seq<Record>): Ring
    requires Shape(s) && 0 <= slot < DEPTH
  {
    s.(jobs := s.jobs[slot := Job(s.nextId, Queued, program)], nextId := F.NextIdAfter(s.nextId),
       slots := s.slots[s.tail := slot], tail := (s.tail + 1) % DEPTH, count := s.count + 1)
  }

  function BurnId(s: Ring): Ring {
    s.(nextId := F.NextIdAfter(s.nextId))
  }

  /** The first slot with this id decides; -1 when there is none. */
  function StatusOf(jobs: seq<Job>, id: int, from: nat): (r: int)
    requires from <= |jobs|
    ensures -1 <= r <= 1
    decreases |jobs| - from
  {
    if from == |jobs| then -1
    else if jobs[from].id != id then StatusOf(jobs, id, from + 1)
    else if jobs[from].phase == Queued then 1 else if jobs[from].phase == Running then 0 else -1
  }

  ghost function ChannelStep(s: Ring): Ring
    requires Inv(s)
  {
    if !s.str then s
    else
      var p := s.jobs[s.current].program;
      s.(iop := F.Deliver(s.iop, p[s.delivered]), str := s.delivered + 1 < |p|, delivered := s.delivered + 1)
  }

  // ---------------------------------------------------------------- the queue it stands for

  function TransferOf(j: Job): F.Transfer {
    F.Transfer(j.id, j.program)
  }

  function TransfersIn(jobs: seq<Job>, w: seq<int>): (ts: seq<F.Transfer>)
    requires forall i | 0 <= i < |w| :: 0 <= w[i] < |jobs|
    ensures |ts| == |w|
    ensures forall i | 0 <= i < |w| :: ts[i] == TransferOf(jobs[w[i]])
  {
    seq(|w|, i requires 0 <= i < |w| => TransferOf(jobs[w[i]]))
  }

  ghost function Abs(s: Ring): F.Fifo
    requires Inv(s)
  {
    F.Fifo(if s.current >= 0 then Some(TransferOf(s.jobs[s.current])) else None, s.str,
           if s.current >= 0 then s.delivered else 0, TransfersIn(s.jobs, W(s)), s.nextId, s.iop)
  }

  ghost function LiveSlots(s: Ring): seq<int>
    requires Inv(s)
  {
    (if s.current >= 0 then [s.current] else []) + W(s)
  }

  ghost function Below(n: nat): (r: set<int>)
    ensures forall k :: k in r <==> 0 <= k < n
    ensures |r| == n
  {
    if n == 0 then {} else Below(n - 1) + {n - 1}
  }

  ghost predicate Distinct(w: seq<int>) {
    forall i, j | 0 <= i < j < |w| :: w[i] != w[j]
  }

  /** The ring after a reset. */
  lemma EmptyRing(s: Ring)
    requires Shape(s) && s.count == 0 && s.current == -1 && s.nextId == 1 && !s.str
    requires forall k | 0 <= k < DEPTH :: s.jobs[k] == FREE_JOB
    ensures Inv(s) && Abs(s) == F.Initial(s.iop).f
  {
  }

  lemma LiveSlotsDistinct(jobs: seq<Job>, w: seq<int>, current: int)
    requires QueueIsExact(jobs, w) && SlotsOk(jobs, current) && current < |jobs|
    ensures current >= 0 ==> Distinct([current] + w)
  {
    if current >= 0 {
      assert jobs[current].phase == Running;
      var l := [current] + w;
      forall i, j | 0 <= i < j < |l|
        ensures l[i] != l[j]
      {
        assert l[j] == w[j - 1] && jobs[w[j - 1]].phase == Queued;
        if i > 0 {
          assert l[i] == w[i - 1];
        }
      }
    }
  }

  lemma LiveSlotsCover(s: Ring)
    requires Inv(s)
    ensures forall k | 0 <= k < DEPTH && s.jobs[k].phase != Free :: k in LiveSlots(s)
  {
    forall k | 0 <= k < DEPTH && s.jobs[k].phase != Free
      ensures k in LiveSlots(s)
    {
      if s.jobs[k].phase == Queued {
        assert k in W(s);
      } else {
        assert k == s.current;
      }
    }
  }

  lemma LiveAreTransfers(s: Ring)
    requires Inv(s)
    ensures forall i | 0 <= i < |LiveSlots(s)| :: 0 <= LiveSlots(s)[i] < |s.jobs|
    ensures F.Live(Abs(s)) == TransfersIn(s.jobs, LiveSlots(s))
  {
    hide TransferOf, JobOk, Waiting;
  }

  lemma LiveAreOccupied(s: Ring)
    requires Inv(s)
    ensures forall i | 0 <= i < |LiveSlots(s)| :: 0 <= LiveSlots(s)[i] < DEPTH && s.jobs[LiveSlots(s)[i]].phase != Free
  {
    hide JobOk, Waiting;
    assert s.current >= 0 ==> s.jobs[s.current].phase == Running;
  }

  lemma LiveSlotsExact(s: Ring)
    requires Inv(s)
    ensures Distinct(LiveSlots(s))
    ensures forall i | 0 <= i < |LiveSlots(s)| :: 0 <= LiveSlots(s)[i] < DEPTH && s.jobs[LiveSlots(s)[i]].phase != Free
    ensures forall k | 0 <= k < DEPTH && s.jobs[k].phase != Free :: k in LiveSlots(s)
    ensures |F.Live(Abs(s))| == |LiveSlots(s)|
    ensures forall i | 0 <= i < |LiveSlots(s)| :: F.Live(Abs(s))[i] == TransferOf(s.jobs[LiveSlots(s)[i]])
  {
    hide W, Waiting, F.Live, TransferOf;
    LiveAreTransfers(s);
    LiveAreOccupied(s);
    LiveSlotsDistinct(s.jobs, W(s), s.current);
    LiveSlotsCover(s);
  }

  lemma AbsOk(s: Ring)
    requires Inv(s)
    ensures F.Ok(Abs(s))
  {
    hide QueueIsExact, W;
    LiveSlotsExact(s);
    FitsBelow(LiveSlots(s), DEPTH);
  }

  /** The queue is full exactly when no slot is free. */
  lemma FullMeansNoFreeSlot(s: Ring)
    requires Inv(s)
    ensures F.Full(Abs(s)) <==> FindFree(s.jobs, 0) < 0
    ensures FindFree(s.jobs, 0) >= 0 ==> s.count < DEPTH
  {
    LiveSlotsExact(s);
    LivePigeons(s.jobs, LiveSlots(s));
    assert s.count <= |LiveSlots(s)|;
  }

  lemma LivePigeons(jobs: seq<Job>, l: seq<int>)
    requires |jobs| == DEPTH && Distinct(l)
    requires forall i | 0 <= i < |l| :: 0 <= l[i] < DEPTH && jobs[l[i]].phase != Free
    requires forall k | 0 <= k < DEPTH && jobs[k].phase != Free :: k in l
    ensures |l| <= DEPTH
    ensures |l| == DEPTH <==> FindFree(jobs, 0) < 0
  {
    hide Distinct, FindFree;
    var slot := FindFree(jobs, 0);
    if slot >= 0 {
      AvoidingFits(l, slot);
    } else {
      CoverFills(l);
    }
  }

  lemma CoverFills(l: seq<int>)
    requires Distinct(l) && forall i | 0 <= i < |l| :: 0 <= l[i] < DEPTH
    requires forall k | 0 <= k < DEPTH :: k in l
    ensures |l| == DEPTH
  {
    FitsBelow(l, DEPTH);
    PigeonCover(l, DEPTH);
  }

  lemma AvoidingFits(l: seq<int>, slot: int)
    requires Distinct(l) && 0 <= slot < DEPTH
    requires forall i | 0 <= i < |l| :: 0 <= l[i] < DEPTH && l[i] != slot
    ensures |l| < DEPTH
  {
    FitsBelow(l + [slot], DEPTH);
  }

  lemma FitsBelow(l: seq<int>, n: nat)
    requires Distinct(l) && forall i | 0 <= i < |l| :: 0 <= l[i] < n
    ensures |l| <= n
  {
    DistinctFit(l, Below(n));
  }

  lemma PigeonCover(w: seq<int>, n: nat)
    requires forall k | 0 <= k < n :: k in w
    ensures |w| >= n
    decreases n
  {
    if n > 0 {
      assert n - 1 in w;
      var at :| 0 <= at < |w| && w[at] == n - 1;
      var rest := w[..at] + w[at + 1..];
      forall k | 0 <= k < n - 1
        ensures k in rest
      {
        assert k in w;
        var i :| 0 <= i < |w| && w[i] == k;
        assert rest[if i < at then i else i - 1] == k;
      }
      PigeonCover(rest, n - 1);
    }
  }

  // ---------------------------------------------------------------- refinement

  lemma RetireRefines(s: Ring)
    requires Inv(s)
    ensures Inv(Retire(s)) && Abs(Retire(s)) == F.Retire(Abs(s))
  {
    var t := Retire(s);
    assert W(t) == W(s);
    assert forall k | 0 <= k < |t.jobs| && t.jobs[k].phase == Queued :: s.jobs[k].phase == Queued;
    assert TransfersIn(t.jobs, W(t)) == TransfersIn(s.jobs, W(s));
  }

  lemma HeadIsFirst(slots: seq<int>, head: int, count: int)
    requires |slots| == DEPTH && 0 <= head < DEPTH && 0 < count
    ensures Waiting(slots, head, count)[0] == slots[head]
    ensures Waiting(slots, (head + 1) % DEPTH, count - 1) == Waiting(slots, head, count)[1..]
  {
    var w, v := Waiting(slots, head, count), Waiting(slots, (head + 1) % DEPTH, count - 1);
    forall j | 0 <= j < count - 1
      ensures v[j] == w[1..][j]
    {
      NextPlace(head, j);
    }
  }

  lemma NextPlace(head: int, j: int)
    requires 0 <= head < DEPTH
    ensures ((head + 1) % DEPTH + j) % DEPTH == (head + (j + 1)) % DEPTH
  {
    if head + 1 == DEPTH {
      assert (head + (j + 1)) % DEPTH == (DEPTH + j) % DEPTH;
    }
  }

  lemma TailIsLast(slots: seq<int>, head: int, count: int, slot: int)
    requires |slots| == DEPTH && 0 <= head < DEPTH && 0 <= count < DEPTH
    ensures Waiting(slots[(head + count) % DEPTH := slot], head, count + 1) == Waiting(slots, head, count) + [slot]
  {
    var w := Waiting(slots, head, count);
    var v := Waiting(slots[(head + count) % DEPTH := slot], head, count + 1);
    forall j | 0 <= j < count
      ensures v[j] == w[j]
    {
      assert (head + j) % DEPTH != (head + count) % DEPTH;
    }
  }

  lemma StartNextShape(s: Ring)
    requires Inv(s) && s.current < 0 && s.count > 0
    ensures 0 <= s.slots[s.head] < DEPTH && s.slots[s.head] == W(s)[0]
    ensures Shape(StartNext(s)) && W(StartNext(s)) == W(s)[1..]
  {
    hide SlotsOk, ChannelOk, Waiting;
    HeadIsFirst(s.slots, s.head, s.count);
  }

  lemma StartNextRefines(s: Ring)
    requires Inv(s)
    ensures Inv(StartNext(s)) && Abs(StartNext(s)) == F.StartNext(Abs(s))
  {
    hide QueueIsExact, SlotsOk, Waiting, W;
    if s.current < 0 && s.count > 0 {
      StartNextShape(s);
      StartedSlots(s.jobs, StartNext(s).jobs, W(s));
      StartedTransfers(s.jobs, StartNext(s).jobs, W(s));
    }
  }

  lemma StartedTransfers(jobs: seq<Job>, now: seq<Job>, w: seq<int>)
    requires QueueIsExact(jobs, w) && w != []
    requires now == jobs[w[0] := jobs[w[0]].(phase := Running)]
    ensures TransfersIn(now, w[1..]) == TransfersIn(jobs, w)[1..]
    ensures TransferOf(now[w[0]]) == TransfersIn(jobs, w)[0]
  {
  }

  lemma StartedSlots(jobs: seq<Job>, now: seq<Job>, w: seq<int>)
    requires QueueIsExact(jobs, w) && w != [] && SlotsOk(jobs, -1)
    requires now == jobs[w[0] := jobs[w[0]].(phase := Running)]
    ensures QueueIsExact(now, w[1..]) && SlotsOk(now, w[0]) && now[w[0]].program != []
  {
    forall k | 0 <= k < |now| && now[k].phase == Queued
      ensures k in w[1..]
    {
      assert jobs[k].phase == Queued && k in w;
      var i :| 0 <= i < |w| && w[i] == k;
      assert w[1..][i - 1] == k;
    }
  }

  lemma PumpRefines(s: Ring)
    requires Inv(s)
    ensures Inv(Pump(s)) && Abs(Pump(s)) == F.Pump(Abs(s))
  {
    RetireRefines(s);
    hide Inv, Retire, StartNext, Abs;
    StartNextRefines(Retire(s));
  }

  lemma EnqueuedSlots(jobs: seq<Job>, now: seq<Job>, w: seq<int>, slot: int, job: Job, current: int)
    requires QueueIsExact(jobs, w) && SlotsOk(jobs, current)
    requires 0 <= slot < |jobs| && jobs[slot].phase == Free && job.phase == Queued && JobOk(job)
    requires now == jobs[slot := job]
    ensures slot !in w && QueueIsExact(now, w + [slot]) && SlotsOk(now, current)
    ensures TransfersIn(now, w + [slot]) == TransfersIn(jobs, w) + [TransferOf(job)]
  {
    assert slot !in w;
    forall k | 0 <= k < |now| && now[k].phase == Queued
      ensures k in w + [slot]
    {
      if k == slot {
        assert (w + [slot])[|w|] == k;
      } else {
        assert jobs[k].phase == Queued;
      }
    }
  }

  lemma EnqueueShape(s: Ring, slot: int, program: seq<Record>)
    requires Inv(s) && 0 <= slot < DEPTH && s.jobs[slot].phase == Free && s.count < DEPTH
    ensures Shape(Enqueue(s, slot, program)) && W(Enqueue(s, slot, program)) == W(s) + [slot] && s.current != slot
  {
    hide QueueIsExact, Waiting;
    TailIsLast(s.slots, s.head, s.count, slot);
  }

  lemma EnqueueRefines(s: Ring, slot: int, program: seq<Record>)
    requires Inv(s) && 0 <= slot < DEPTH && s.jobs[slot].phase == Free && program != [] && s.count < DEPTH
    ensures Inv(Enqueue(s, slot, program)) && Abs(Enqueue(s, slot, program)) == F.Enqueue(Abs(s), program)
  {
    hide QueueIsExact, SlotsOk, TransfersIn, W;
    EnqueueShape(s, slot, program);
    EnqueuedSlots(s.jobs, Enqueue(s, slot, program).jobs, W(s), slot, Job(s.nextId, Queued, program), s.current);
  }

  lemma BurnIdRefines(s: Ring)
    requires Inv(s)
    ensures Inv(BurnId(s)) && Abs(BurnId(s)) == F.BurnId(Abs(s))
  {
    assert W(BurnId(s)) == W(s);
  }

  lemma ChannelStepRefines(s: Ring)
    requires Inv(s)
    ensures Inv(ChannelStep(s)) && Abs(ChannelStep(s)) == F.ChannelStep(Abs(s))
  {
    assert W(ChannelStep(s)) == W(s);
  }

  /** A job goes into a free slot and to the tail of the ring, and the ring is pumped. */
  ghost function Commit(p: Ring, slot: int, program: seq<Record>): (r: Ring)
    requires Inv(p) && 0 <= slot < DEPTH && p.jobs[slot].phase == Free && program != [] && p.count < DEPTH
  {
    EnqueueRefines(p, slot, program);
    Pump(Enqueue(p, slot, program))
  }

  /** `ee_sif_set_dma` once free slot `slot` is found. */
  ghost function Accept(p: Ring, slot: int, q: F.Request): (Ring, int)
    requires Inv(p) && 0 <= slot < DEPTH && p.jobs[slot].phase == Free && p.count < DEPTH
    requires !q.BadArguments? && F.RequestOk(q)
  {
    if q.Unbuildable? then (BurnId(p), 0) else (Commit(p, slot, q.program), p.nextId)
  }

  /** `ee_sif_set_dma` on the static state. */
  ghost function SetDma(s: Ring, q: F.Request): (Ring, int)
    requires Inv(s) && F.RequestOk(q)
  {
    PumpRefines(s);
    FullMeansNoFreeSlot(Pump(s));
    var p := Pump(s);
    var slot := FindFree(p.jobs, 0);
    if q.BadArguments? || slot < 0 then (p, 0) else Accept(p, slot, q)
  }

  lemma AcceptRefines(p: Ring, slot: int, q: F.Request)
    requires Inv(p) && 0 <= slot < DEPTH && p.jobs[slot].phase == Free && p.count < DEPTH
    requires !q.BadArguments? && F.RequestOk(q)
    ensures Inv(Accept(p, slot, q).0)
    ensures (Abs(Accept(p, slot, q).0), Accept(p, slot, q).1)
         == if q.Unbuildable? then (F.BurnId(Abs(p)), 0) else (F.Pump(F.Enqueue(Abs(p), q.program)), p.nextId)
  {
    if q.Unbuildable? {
      BurnIdRefines(p);
    } else {
      EnqueueRefines(p, slot, q.program);
      hide Pump, Abs, Enqueue, Inv;
      PumpRefines(Enqueue(p, slot, q.program));
    }
  }

  lemma SetDmaRefines(s: Ring, q: F.Request)
    requires Inv(s) && F.RequestOk(q)
    ensures Inv(SetDma(s, q).0)
    ensures (Abs(SetDma(s, q).0), SetDma(s, q).1) == F.Submit(Abs(s), q)
  {
    PumpRefines(s);
    var p := Pump(s);
    FullMeansNoFreeSlot(p);
    var slot := FindFree(p.jobs, 0);
    if !q.BadArguments? && slot >= 0 {
      AcceptRefines(p, slot, q);
    }
  }

  /** What a submission answers: its id exactly if the list compiles and the ring has room; an id is used up
      by any list of a permitted length that finds room, and a bad call only pumps. */
  lemma SetDmaMeans(s: Ring, q: F.Request)
    requires Inv(s) && F.RequestOk(q)
    ensures var (r, id) := SetDma(s, q);
            var room := exists k :: 0 <= k < DEPTH && Pump(s).jobs[k].phase == Free;
            && (id != 0 <==> q.Compiles? && room) && (id != 0 ==> id == s.nextId)
            && (q.BadArguments? || !room ==> r == Pump(s))
            && r.nextId == if !q.BadArguments? && room then F.NextIdAfter(s.nextId) else s.nextId
  {
    hide Inv, Pump, Accept, FindFree;
    PumpRefines(s);
    PumpKeepsId(s);
    var p := Pump(s);
    FullMeansNoFreeSlot(p);
    RoomMeans(p);
    var slot := FindFree(p.jobs, 0);
    if !q.BadArguments? && slot >= 0 {
      AcceptMeans(p, slot, q);
    }
  }

  lemma RoomMeans(p: Ring)
    requires Inv(p)
    ensures FindFree(p.jobs, 0) >= 0 <==> exists k :: 0 <= k < DEPTH && p.jobs[k].phase == Free
    ensures FindFree(p.jobs, 0) >= 0 ==> p.jobs[FindFree(p.jobs, 0)].phase == Free
  {
    hide QueueIsExact, SlotsOk, ChannelOk;
  }

  lemma AcceptMeans(p: Ring, slot: int, q: F.Request)
    requires Inv(p) && 0 <= slot < DEPTH && p.jobs[slot].phase == Free && p.count < DEPTH
    requires !q.BadArguments? && F.RequestOk(q) && p.nextId != 0
    ensures var (r, id) := Accept(p, slot, q);
            r.nextId == F.NextIdAfter(p.nextId) && id == if q.Compiles? then p.nextId else 0
  {
    hide Inv, Pump;
    if q.Compiles? {
      PumpKeepsId(p);
      EnqueueRefines(p, slot, q.program);
      PumpKeepsId(Enqueue(p, slot, q.program));
    }
  }

  lemma PumpKeepsId(s: Ring)
    requires Inv(s)
    ensures Shape(s) && Pump(s).nextId == s.nextId != 0
  {
    hide QueueIsExact, SlotsOk, ChannelOk;
  }

  // ---------------------------------------------------------------- status

  /** The first slot with the id decides. */
  lemma {:induction false} FirstSlotDecides(jobs: seq<Job>, id: int, from: nat, k: nat)
    requires from <= k < |jobs| && jobs[k].id == id
    requires forall j | from <= j < k :: jobs[j].id != id
    ensures StatusOf(jobs, id, from) == if jobs[k].phase == Queued then 1 else if jobs[k].phase == Running then 0
            else -1
    decreases |jobs| - from
  {
    if from != k {
      FirstSlotDecides(jobs, id, from + 1, k);
    }
  }

  /** A negative status means no occupied slot carries the id. */
  lemma {:induction false} NegativeStatus(jobs: seq<Job>, current: int, id: int, from: nat)
    requires from <= |jobs| && SlotsOk(jobs, current) && id != 0
    ensures StatusOf(jobs, id, from) < 0 <==> forall j | from <= j < |jobs| :: jobs[j].id != id
    decreases |jobs| - from
  {
    if from < |jobs| {
      NegativeStatus(jobs, current, id, from + 1);
    }
  }

  /** The position of an occupied slot among the live transfers. */
  lemma LivePosition(s: Ring, k: int) returns (i: nat)
    requires Inv(s) && 0 <= k < DEPTH && s.jobs[k].phase != Free
    ensures i < |F.Live(Abs(s))| && F.Live(Abs(s))[i] == TransferOf(s.jobs[k])
    ensures LiveSlots(s)[i] == k
    ensures s.jobs[k].phase == Running <==> s.current >= 0 && i == 0
  {
    LiveSlotsExact(s);
    assert k in LiveSlots(s);
    i :| 0 <= i < |LiveSlots(s)| && LiveSlots(s)[i] == k;
  }

  ghost predicate DistinctIds(ts: seq<F.Transfer>) {
    forall i, j | 0 <= i < j < |ts| :: ts[i].id != ts[j].id
  }

  /** When the occupied slots carry distinct ids, the scan reports the queue's own answer. */
  lemma StatusRefines(s: Ring, id: int)
    requires Inv(s) && id != 0 && DistinctIds(F.Live(Abs(s)))
    ensures StatusOf(s.jobs, id, 0) == F.Report(Abs(s), id)
  {
    NegativeStatus(s.jobs, s.current, id, 0);
    if k :| 0 <= k < |s.jobs| && s.jobs[k].id == id {
      FoundStatusRefines(s, id, k);
    } else {
      var f := Abs(s);
      assert forall i | 0 <= i < |f.waiting| :: f.waiting[i].id == s.jobs[W(s)[i]].id != id;
      assert s.current >= 0 ==> s.jobs[s.current].id != id;
    }
  }

  lemma OnlySlotWithId(s: Ring, id: int, k: int)
    requires Inv(s) && id != 0 && DistinctIds(F.Live(Abs(s)))
    requires 0 <= k < |s.jobs| && s.jobs[k].id == id
    ensures forall j | 0 <= j < |s.jobs| && j != k :: s.jobs[j].id != id
  {
    hide QueueIsExact, W, Waiting;
    assert s.jobs[k].phase != Free;
    var i := LivePosition(s, k);
    forall j | 0 <= j < |s.jobs| && j != k
      ensures s.jobs[j].id != id
    {
      if s.jobs[j].phase != Free {
        var m := LivePosition(s, j);
        assert F.Live(Abs(s))[i].id != F.Live(Abs(s))[m].id;
      }
    }
  }

  lemma FoundStatusRefines(s: Ring, id: int, k: int)
    requires Inv(s) && id != 0 && DistinctIds(F.Live(Abs(s)))
    requires 0 <= k < |s.jobs| && s.jobs[k].id == id
    ensures StatusOf(s.jobs, id, 0) == F.Report(Abs(s), id)
  {
    hide QueueIsExact, W, Waiting, StatusOf;
    assert s.jobs[k].phase != Free;
    var f := Abs(s);
    var i := LivePosition(s, k);
    OnlySlotWithId(s, id, k);
    FirstSlotDecides(s.jobs, id, 0, k);
    if s.jobs[k].phase == Queued {
      assert f.waiting[if s.current >= 0 then i - 1 else i].id == id;
    }
  }

  /** In any run, polling an accepted transfer reports whether it is queued, running or done, as
      long as fewer than 2^31 - 1 ids were handed out since it and since the oldest live one. */
  lemma PolledStatusIsTrue(s: Ring, h: F.History, e: nat)
    requires Inv(s) && F.HistoryOk(h) && h.f == Abs(s) && e < |h.accepted|
    requires F.Recent(h, e) && F.Recent(h, F.OldestLive(h))
    ensures StatusOf(s.jobs, h.accepted[e].transfer.id, 0) == F.Status(h, e)
  {
    forall i, j | 0 <= i < j < |F.Live(h.f)|
      ensures F.Live(h.f)[i].id != F.Live(h.f)[j].id
    {
      F.LiveIdsDiffer(h, i, j);
    }
    F.ReportIsTrue(h, e);
    StatusRefines(s, h.accepted[e].transfer.id);
  }

  // ---------------------------------------------------------------- status, with ids that repeat

  ghost predicate Mirrors(s: Ring, h: F.History) {
    Inv(s) && F.HistoryOk(h) && h.f == Abs(s)
  }

  /** Log entry `d` is still queued or running. */
  ghost predicate IsLive(h: F.History, d: nat) {
    F.OldestLive(h) <= d < |h.accepted|
  }

  lemma LiveEntriesHaveSlots(s: Ring, h: F.History)
    requires Mirrors(s, h)
    ensures 0 <= F.OldestLive(h) && |LiveSlots(s)| == |h.accepted| - F.OldestLive(h)
  {
    hide Inv, Abs, LiveSlots, W;
    LiveAreTransfers(s);
  }

  /** The slot that holds live log entry `d`. */
  ghost function SlotOf(s: Ring, h: F.History, d: nat): int
    requires Mirrors(s, h) && IsLive(h, d)
  {
    LiveEntriesHaveSlots(s, h);
    LiveSlots(s)[d - F.OldestLive(h)]
  }

  /** What `SlotOf` finds: the entry's own id and phase. */
  lemma SlotHoldsEntry(s: Ring, h: F.History, d: nat)
    requires Mirrors(s, h) && IsLive(h, d)
    ensures var k := SlotOf(s, h, d);
            && 0 <= k < DEPTH == |s.jobs| && s.jobs[k].id == h.accepted[d].transfer.id
            && s.jobs[k].phase == (if F.Status(h, d) == 0 then Running else Queued)
  {
    hide F.HistoryOk, F.Status, Inv, F.Live, W, LiveSlots;
    LiveEntriesHaveSlots(s, h);
    LiveSlotsExact(s);
    F.LiveAt(h, d - F.OldestLive(h));
    PhaseByPosition(s, d - F.OldestLive(h));
    LiveStatus(s, h, d);
  }

  lemma LiveStatus(s: Ring, h: F.History, d: nat)
    requires Mirrors(s, h) && IsLive(h, d)
    ensures |s.jobs| == DEPTH && F.Status(h, d) == if d < |h.accepted| - s.count then 0 else 1
  {
    hide F.HistoryOk, Waiting, F.Live;
    assert |h.f.waiting| == s.count;
  }

  lemma PhaseByPosition(s: Ring, i: nat)
    requires Inv(s) && i < |LiveSlots(s)| && 0 <= LiveSlots(s)[i] < DEPTH
    ensures s.jobs[LiveSlots(s)[i]].phase == if i < |LiveSlots(s)| - s.count then Running else Queued
  {
    hide Waiting, JobOk;
    assert s.current >= 0 ==> s.jobs[s.current].phase == Running;
  }

  /** The two transfers were given the same id. */
  predicate SameId(h: F.History, e: nat, d: nat)
    requires e < |h.accepted| && d < |h.accepted|
  {
    (h.accepted[d].ticket - h.accepted[e].ticket) % F.MAX_ID == 0
  }

  /** Live transfer `d` is in the lowest slot whose id is that of log entry `e`. */
  ghost predicate AnswersFor(s: Ring, h: F.History, e: nat, d: nat)
    requires Mirrors(s, h) && e < |h.accepted|
  {
    && IsLive(h, d) && SameId(h, e, d)
    && forall c: nat | IsLive(h, c) && SameId(h, e, c) :: SlotOf(s, h, d) <= SlotOf(s, h, c)
  }

  /** The log entry a slot that carries entry `e`'s id belongs to. */
  lemma EntryOfSlot(s: Ring, h: F.History, e: nat, k: nat) returns (d: nat)
    requires Mirrors(s, h) && e < |h.accepted|
    requires k < |s.jobs| && s.jobs[k].id == h.accepted[e].transfer.id
    ensures IsLive(h, d) && SameId(h, e, d) && SlotOf(s, h, d) == k
  {
    hide Inv, F.HistoryOk, F.Live, F.OldestLive, LiveSlots, Abs;
    LiveEntriesHaveSlots(s, h);
    OccupiedById(s, h, e, k);
    var i := LivePosition(s, k);
    F.LiveAt(h, i);
    d := F.OldestLive(h) + i;
    F.SameIdExactly(h, e, d);
  }

  lemma OccupiedById(s: Ring, h: F.History, e: nat, k: nat)
    requires Mirrors(s, h) && e < |h.accepted| && k < |s.jobs| && s.jobs[k].id == h.accepted[e].transfer.id
    ensures |s.jobs| == DEPTH && s.jobs[k].phase != Free && s.jobs[k].id != 0
  {
    hide QueueIsExact, W, ChannelOk, Abs;
    assert JobOk(s.jobs[k]);
  }

  /** The poll reports the phase of the transfer that answers. */
  lemma PollReportsTheAnswerer(s: Ring, h: F.History, e: nat, d: nat)
    requires Mirrors(s, h) && e < |h.accepted| && AnswersFor(s, h, e, d)
    ensures StatusOf(s.jobs, h.accepted[e].transfer.id, 0) == F.Status(h, d)
  {
    hide Inv, SlotOf, F.Status, F.HistoryOk, StatusOf;
    var id, k := h.accepted[e].transfer.id, SlotOf(s, h, d);
    SlotHoldsEntry(s, h, d);
    F.SameIdExactly(h, e, d);
    LiveStatus(s, h, d);
    forall j | 0 <= j < k
      ensures s.jobs[j].id != id
    {
      if s.jobs[j].id == id {
        var c := EntryOfSlot(s, h, e, j);
      }
    }
    FirstSlotDecides(s.jobs, id, 0, k);
  }

  lemma SameIdIsInTheSlot(s: Ring, h: F.History, e: nat, d: nat)
    requires Mirrors(s, h) && e < |h.accepted| && IsLive(h, d) && SameId(h, e, d)
    ensures 0 <= SlotOf(s, h, d) < |s.jobs| && s.jobs[SlotOf(s, h, d)].id == h.accepted[e].transfer.id
  {
    hide Inv, SlotOf, F.Status, F.HistoryOk;
    SlotHoldsEntry(s, h, d);
    F.SameIdExactly(h, e, d);
  }

  /** Some transfer answers as soon as one slot has the id. */
  lemma SomeoneAnswers(s: Ring, h: F.History, e: nat, k: nat) returns (d: nat)
    requires Mirrors(s, h) && e < |h.accepted| && k < |s.jobs| && s.jobs[k].id == h.accepted[e].transfer.id
    ensures AnswersFor(s, h, e, d)
    decreases k
  {
    hide Mirrors, SlotOf, F.OldestLive;
    if j: nat :| j < k && s.jobs[j].id == h.accepted[e].transfer.id {
      d := SomeoneAnswers(s, h, e, j);
    } else {
      d := EntryOfSlot(s, h, e, k);
      forall c: nat | IsLive(h, c) && SameId(h, e, c)
        ensures SlotOf(s, h, d) <= SlotOf(s, h, c)
      {
        SameIdIsInTheSlot(s, h, e, c);
      }
    }
  }

  /** In any run and for every accepted transfer: the poll is right exactly when the transfer in the
      lowest slot with its id, if there is one, is running if and only if the polled one is, and the
      polled one is not finished. */
  lemma PolledStatusIsTrueExactly(s: Ring, h: F.History, e: nat)
    requires Mirrors(s, h) && e < |h.accepted|
    ensures StatusOf(s.jobs, h.accepted[e].transfer.id, 0) == F.Status(h, e)
            <==> forall d: nat | AnswersFor(s, h, e, d) ::
                F.OldestLive(h) <= e && (d < F.Started(h) <==> e < F.Started(h))
  {
    var id := h.accepted[e].transfer.id;
    forall d: nat | AnswersFor(s, h, e, d)
      ensures StatusOf(s.jobs, id, 0) == F.Status(h, d)
    {
      PollReportsTheAnswerer(s, h, e, d);
    }
    if k: nat :| k < |s.jobs| && s.jobs[k].id == id {
      var d := SomeoneAnswers(s, h, e, k);
    } else {
      NobodyAnswers(s, h, e);
    }
  }

  lemma NobodyAnswers(s: Ring, h: F.History, e: nat)
    requires Mirrors(s, h) && e < |h.accepted|
    requires forall k | 0 <= k < |s.jobs| :: s.jobs[k].id != h.accepted[e].transfer.id
    ensures StatusOf(s.jobs, h.accepted[e].transfer.id, 0) == -1 == F.Status(h, e)
    ensures forall d: nat :: !AnswersFor(s, h, e, d)
  {
    NothingHasTheId(s, h, e);
    hide Mirrors, SlotOf, StatusOf, F.Live;
    if IsLive(h, e) {
      SameIdIsInTheSlot(s, h, e, e);
    }
    forall d: nat | AnswersFor(s, h, e, d)
      ensures false
    {
      SameIdIsInTheSlot(s, h, e, d);
    }
  }

  lemma NothingHasTheId(s: Ring, h: F.History, e: nat)
    requires Mirrors(s, h) && e < |h.accepted|
    requires forall k | 0 <= k < |s.jobs| :: s.jobs[k].id != h.accepted[e].transfer.id
    ensures StatusOf(s.jobs, h.accepted[e].transfer.id, 0) == -1
  {
    hide QueueIsExact, W, ChannelOk, Abs, F.Live;
    NegativeStatus(s.jobs, s.current, h.accepted[e].transfer.id, 0);
  }

  /** A failing run: exactly 2^31 - 1 ids after a finished transfer the scan answers a poll for it with
      the status of a newer one. */
  lemma ReusedIdIsMisreported(s: Ring, h: F.History, e: nat, program: seq<Record>)
    requires F.HistoryOk(h) && F.Live(h.f) == [] && e < |h.accepted| && F.Recent(h, e) && program != []
    requires var b := F.Run(h, F.Burns(F.MAX_ID - (h.issued - h.accepted[e].ticket)));
             Mirrors(s, F.Next(b, F.Submits(F.Compiles(program))))
    ensures StatusOf(s.jobs, h.accepted[e].transfer.id, 0) == 0
  {
    hide F.Next, F.Run, F.Burns, F.IdOf, F.HistoryOk, F.Recent, F.Status, F.Report, F.Live, Inv, Abs, StatusOf;
    var n := F.MAX_ID - (h.issued - h.accepted[e].ticket);
    F.ReusedIdMisreports(h, e, program);
    F.BurningIds(h, n);
    F.IdleStarts(F.Run(h, F.Burns(n)), program);
    EntryHasId(h, e);
    LoneTransfer(s, h.accepted[e].transfer.id);
  }

  lemma LoneTransfer(s: Ring, id: int)
    requires Inv(s) && id != 0 && Abs(s).waiting == []
    ensures StatusOf(s.jobs, id, 0) == F.Report(Abs(s), id)
  {
    hide Inv, Abs, StatusOf, F.Report;
    StatusRefines(s, id);
  }

  lemma EntryHasId(h: F.History, e: nat)
    requires F.HistoryOk(h) && e < |h.accepted|
    ensures h.accepted[e].transfer.id != 0
  {
  }
}
