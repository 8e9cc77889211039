/**
 What the SIF1 job queue means: a first-in first-out queue of transfer programs in front of a
 channel that delivers one record at a time to IOP memory and may run arbitrarily slowly.
 Runs of this queue are sequential, report honest statuses and drain.
 */
module SifFifo {
  import opened Bytes
  import opened SifStream

  const SIF_DMA_QUEUE_DEPTH := 8
  const MAX_ID := 0x7fff_ffff

  // ---------------------------------------------------------------- IOP memory

  type IopMemory = imap<int, u8>

  ghost function Deliver(m: IopMemory, r: Record): IopMemory {
    imap a | a in m :: if r.dest <= a < r.dest + |r.data| then r.data[a - r.dest] else m[a]
  }

  ghost function DeliverAll(m: IopMemory, rs: seq<Record>): IopMemory {
    if rs == [] then m else DeliverAll(Deliver(m, rs[0]), rs[1..])
  }

  lemma DeliverNothing(m: IopMemory)
    ensures DeliverAll(m, []) == m
  {
  }

  lemma DeliverAll1(m: IopMemory, r: Record)
    ensures DeliverAll(m, [r]) == Deliver(m, r)
  {
    assert DeliverAll(Deliver(m, r), [r][1..]) == Deliver(m, r);
  }

  /** Two deliveries end to end are one. */
  lemma AdjacentDeliveries(m: IopMemory, dest: nat, a: seq<u8>, r: Record)
    requires r.dest == dest + |a|
    ensures Deliver(Deliver(m, Record(dest, false, false, a)), r) == Deliver(m, Record(dest, false, false, a + r.data))
  {
  }

  lemma {:induction false} DeliverInParts(m: IopMemory, a: seq<Record>, b: seq<Record>)
    ensures DeliverAll(m, a + b) == DeliverAll(DeliverAll(m, a), b)
    decreases |a|
  {
    if a == [] {
      assert a + b == b;
    } else {
      assert (a + b)[1..] == a[1..] + b;
      DeliverInParts(Deliver(m, a[0]), a[1..], b);
    }
  }

  // ---------------------------------------------------------------- the queue

  datatype Transfer = Transfer(id: int, program: seq<Record>)

  /** `str` is the channel's start bit; `delivered` counts records of the running transfer. */
  datatype Fifo = Fifo(running: Option<Transfer>, str: bool, delivered: nat, waiting: seq<Transfer>,
                       nextId: int, iop: IopMemory)

  /** What the caller hands to `ee_sif_set_dma`: a list it refuses at sight, a list that does
      not compile, or one that compiles to a program. */
  datatype Request = BadArguments | Unbuildable | Compiles(program: seq<Record>)

  /** Everything that occupies a job slot, oldest first. */
  function Live(f: Fifo): seq<Transfer> {
    (if f.running.Some? then [f.running.value] else []) + f.waiting
  }

  ghost predicate Ok(f: Fifo) {
    && |Live(f)| <= SIF_DMA_QUEUE_DEPTH
    && (forall i | 0 <= i < |Live(f)| :: Live(f)[i].program != [] && 1 <= Live(f)[i].id <= MAX_ID)
    && 1 <= f.nextId <= MAX_ID
    && (f.running.None? ==> !f.str && f.delivered == 0)
    && (f.running.Some? && f.str ==> f.delivered < |f.running.value.program|)
    && (f.running.Some? && !f.str ==> f.delivered == |f.running.value.program|)
  }

  ghost function ChannelStep(f: Fifo): Fifo {
    if !f.str || f.running.None? || f.delivered >= |f.running.value.program| then f
    else
      var p := f.running.value.program;
      f.(iop := Deliver(f.iop, p[f.delivered]), str := f.delivered + 1 < |p|, delivered := f.delivered + 1)
  }

  function Retire(f: Fifo): Fifo {
    if f.running.Some? && !f.str then f.(running := None, delivered := 0) else f
  }

  function StartNext(f: Fifo): Fifo {
    if f.running.None? && f.waiting != [] then
      f.(running := Some(f.waiting[0]), waiting := f.waiting[1..], str := true, delivered := 0)
    else f
  }

  function Pump(f: Fifo): Fifo {
    StartNext(Retire(f))
  }

  function NextIdAfter(id: int): int {
    if id + 1 == 0x1_0000_0000 || id + 1 > MAX_ID then 1 else id + 1
  }

  function Enqueue(f: Fifo, program: seq<Record>): Fifo {
    f.(waiting := f.waiting + [Transfer(f.nextId, program)], nextId := NextIdAfter(f.nextId))
  }

  function BurnId(f: Fifo): Fifo {
    f.(nextId := NextIdAfter(f.nextId))
  }

  predicate Full(f: Fifo) {
    |Live(f)| == SIF_DMA_QUEUE_DEPTH
  }

  function Submit(f: Fifo, q: Request): (Fifo, int) {
    var p := Pump(f);
    if q.BadArguments? || Full(p) then (p, 0)
    else if q.Unbuildable? then (BurnId(p), 0)
    else (Pump(Enqueue(p, q.program)), p.nextId)
  }

  /** Some waiting transfer has this id. */
  predicate InQueue(waiting: seq<Transfer>, id: int) {
    exists i :: 0 <= i < |waiting| && waiting[i].id == id
  }

  ghost predicate RequestOk(q: Request) {
    q.Compiles? ==> q.program != []
  }

  // ---------------------------------------------------------------- eventual memory

  function Programs(ts: seq<Transfer>): seq<Record> {
    if ts == [] then [] else ts[0].program + Programs(ts[1..])
  }

  /** Everything accepted but not yet delivered. */
  ghost function Outstanding(f: Fifo): seq<Record>
    requires Ok(f)
  {
    (if f.running.Some? then f.running.value.program[f.delivered..] else []) + Programs(f.waiting)
  }

  /** IOP memory once the queue has drained. */
  ghost function Eventually(f: Fifo): IopMemory
    requires Ok(f)
  {
    DeliverAll(f.iop, Outstanding(f))
  }

  predicate Idle(f: Fifo) {
    f.waiting == [] && !f.str
  }

  lemma IdleHasDrained(f: Fifo)
    requires Ok(f) && Idle(f)
    ensures Outstanding(f) == [] && f.iop == Eventually(f)
  {
    assert Outstanding(f) == [];
  }

  lemma {:induction false} ProgramsAppend(a: seq<Transfer>, b: seq<Transfer>)
    ensures Programs(a + b) == Programs(a) + Programs(b)
    decreases |a|
  {
    if a == [] {
      assert a + b == b;
    } else {
      assert (a + b)[1..] == a[1..] + b;
      ProgramsAppend(a[1..], b);
    }
  }

  lemma ChannelStepKeepsEventually(f: Fifo)
    requires Ok(f)
    ensures Ok(ChannelStep(f)) && Eventually(ChannelStep(f)) == Eventually(f)
    ensures f.str ==> |Outstanding(ChannelStep(f))| < |Outstanding(f)|
  {
    assert Live(ChannelStep(f)) == Live(f);
    if f.str {
      var p := f.running.value.program;
      assert p[f.delivered..] == [p[f.delivered]] + p[f.delivered + 1..];
      assert Outstanding(f)[0] == p[f.delivered];
      assert Outstanding(f)[1..] == Outstanding(ChannelStep(f));
    }
  }

  lemma RetireKeepsOutstanding(f: Fifo)
    requires Ok(f)
    ensures Ok(Retire(f)) && Outstanding(Retire(f)) == Outstanding(f)
  {
    assert Live(Retire(f)) == if f.running.Some? && !f.str then Live(f)[1..] else Live(f);
  }

  lemma StartNextKeepsOutstanding(f: Fifo)
    requires Ok(f)
    ensures Ok(StartNext(f)) && Outstanding(StartNext(f)) == Outstanding(f)
  {
    if f.running.None? && f.waiting != [] {
      assert f.waiting == [f.waiting[0]] + f.waiting[1..];
      assert Live(StartNext(f)) == Live(f);
      var p := f.waiting[0].program;
      assert p[0..] == p;
    }
  }

  lemma ChannelStepKeepsLive(f: Fifo)
    ensures Live(ChannelStep(f)) == Live(f)
  {
  }

  lemma SubmitId(f: Fifo, q: Request)
    requires Ok(f)
    ensures 0 <= Submit(f, q).1 <= MAX_ID
  {
    assert Pump(f).nextId == f.nextId;
  }

  lemma PumpKeepsOutstanding(f: Fifo)
    requires Ok(f)
    ensures Ok(Pump(f)) && Outstanding(Pump(f)) == Outstanding(f) && Pump(f).iop == f.iop
    ensures Eventually(Pump(f)) == Eventually(f)
    ensures |Pump(f).waiting| <= |f.waiting|
    ensures !f.str && f.waiting != [] ==> |Pump(f).waiting| < |f.waiting|
    ensures Idle(f) ==> Idle(Pump(f))
  {
    hide Ok, Outstanding;
    RetireKeepsOutstanding(f);
    StartNextKeepsOutstanding(Retire(f));
  }

  lemma EnqueueExtendsOutstanding(f: Fifo, program: seq<Record>)
    requires Ok(f) && !Full(f) && program != []
    ensures Ok(Enqueue(f, program)) && Outstanding(Enqueue(f, program)) == Outstanding(f) + program
    ensures Eventually(Enqueue(f, program)) == DeliverAll(Eventually(f), program)
  {
    EnqueueKeepsOk(f, program);
    EnqueueAppends(f, program);
    hide Outstanding, DeliverAll, Ok;
    DeliverInParts(f.iop, Outstanding(f), program);
  }

  lemma EnqueueKeepsOk(f: Fifo, program: seq<Record>)
    requires Ok(f) && !Full(f) && program != []
    ensures Ok(Enqueue(f, program))
  {
    assert Live(Enqueue(f, program)) == Live(f) + [Transfer(f.nextId, program)];
  }

  lemma EnqueueAppends(f: Fifo, program: seq<Record>)
    requires Ok(f)
    ensures Ok(Enqueue(f, program)) ==> Outstanding(Enqueue(f, program)) == Outstanding(f) + program
  {
    hide Ok, Live;
    var t := [Transfer(f.nextId, program)];
    ProgramsAppend(f.waiting, t);
    assert Programs(t) == program + Programs(t[1..]) == program;
  }

  lemma BurnIdKeepsOutstanding(f: Fifo)
    requires Ok(f)
    ensures Ok(BurnId(f)) && Eventually(BurnId(f)) == Eventually(f)
  {
    assert Live(BurnId(f)) == Live(f);
  }

  /** A transfer is accepted exactly when it compiles and the pumped queue has a free slot.
      An accepted one delivers its program after everything accepted before it; a refused one
      changes nothing that will ever reach IOP memory. */
  lemma SubmitIsSequential(f: Fifo, q: Request)
    requires Ok(f) && RequestOk(q)
    ensures Ok(Submit(f, q).0)
    ensures Submit(f, q).1 != 0 <==> q.Compiles? && !Full(Pump(f))
    ensures Eventually(Submit(f, q).0)
         == if Submit(f, q).1 != 0 then DeliverAll(Eventually(f), q.program) else Eventually(f)
  {
    hide Eventually, Outstanding, DeliverAll, Enqueue, BurnId, Pump, Full, Live;
    PumpKeepsOutstanding(f);
    var p := Pump(f);
    if q.Unbuildable? {
      BurnIdKeepsOutstanding(p);
    } else if q.Compiles? && !Full(p) {
      EnqueueExtendsOutstanding(p, q.program);
      PumpKeepsOutstanding(Enqueue(p, q.program));
    }
  }

  // ---------------------------------------------------------------- runs

  /** One accepted transfer: `ticket` counts the ids handed out before it. */
  datatype Entry = Entry(ticket: nat, transfer: Transfer)

  /** The queue together with the log of what it has accepted so far. */
  datatype History = History(f: Fifo, accepted: seq<Entry>, issued: nat)

  datatype Step = Submits(q: Request) | Polls | ChannelWorks

  function IdOf(ticket: nat): int {
    ticket % MAX_ID + 1
  }

  function Transfers(log: seq<Entry>): (ts: seq<Transfer>)
    ensures |ts| == |log|
    ensures forall i | 0 <= i < |log| :: ts[i] == log[i].transfer
  {
    seq(|log|, i requires 0 <= i < |log| => log[i].transfer)
  }

  /** The first log entry that may still occupy a slot. */
  function OldestLive(h: History): int {
    |h.accepted| - |Live(h.f)|
  }

  /** How many accepted transfers the channel has been started on. */
  function Started(h: History): int {
    |h.accepted| - |h.f.waiting|
  }

  /** Ids follow the tickets, and the transfers in the slots are the newest in the log, in order. */
  ghost predicate HistoryOk(h: History) {
    && Ok(h.f)
    && h.f.nextId == IdOf(h.issued)
    && (forall e | 0 <= e < |h.accepted| ::
          h.accepted[e].ticket < h.issued && h.accepted[e].transfer.id == IdOf(h.accepted[e].ticket))
    && (forall e, d | 0 <= e < d < |h.accepted| :: h.accepted[e].ticket < h.accepted[d].ticket)
    && 0 <= OldestLive(h)
    && Live(h.f) == Transfers(h.accepted)[OldestLive(h)..]
  }

  ghost function Initial(iop: IopMemory): History {
    History(Fifo(None, false, 0, [], 1, iop), [], 0)
  }

  ghost predicate StepOk(step: Step) {
    step.Submits? ==> RequestOk(step.q)
  }

  ghost function Next(h: History, step: Step): History
  {
    match step
    case ChannelWorks => h.(f := ChannelStep(h.f))
    case Polls => h.(f := Pump(h.f))
    case Submits(q) =>
      var (t, id) := Submit(h.f, q);
      History(t, if id != 0 then h.accepted + [Entry(h.issued, Transfer(id, q.program))] else h.accepted,
              if t.nextId == h.f.nextId then h.issued else h.issued + 1)
  }

  lemma PumpKeepsHistory(h: History)
    requires HistoryOk(h)
    ensures HistoryOk(h.(f := Pump(h.f))) && Pump(h.f).nextId == h.f.nextId
    ensures 1 <= h.f.nextId && NextIdAfter(h.f.nextId) != h.f.nextId
  {
    hide Outstanding, Eventually, Idle, NextIdAfter, IdOf, Live;
    PumpKeepsOutstanding(h.f);
    PumpedLive(h.f);
    IdAdvances(h.issued);
  }

  lemma PumpedLive(f: Fifo)
    requires Ok(f)
    ensures Live(Pump(f)) == (if f.running.Some? && !f.str then Live(f)[1..] else Live(f))
    ensures Live(f) == [] ==> f.running.None?
  {
    hide Ok;
  }

  lemma IdAdvances(issued: nat)
    ensures NextIdAfter(IdOf(issued)) == IdOf(issued + 1) != IdOf(issued)
  {
  }

  lemma LiveGrows(f: Fifo, program: seq<Record>)
    ensures Live(Enqueue(f, program)) == Live(f) + [Transfer(f.nextId, program)]
  {
  }

  lemma EnqueueKeepsHistory(h: History, program: seq<Record>)
    requires HistoryOk(h) && !Full(h.f) && program != []
    ensures Enqueue(h.f, program).nextId == NextIdAfter(h.f.nextId)
    ensures HistoryOk(History(Enqueue(h.f, program), h.accepted + [Entry(h.issued, Transfer(h.f.nextId, program))],
            h.issued + 1))
  {
    hide Outstanding, Eventually, DeliverAll, IdOf, NextIdAfter, Ok, Full;
    EnqueueExtendsOutstanding(h.f, program);
    IdAdvances(h.issued);
    LiveGrows(h.f, program);
    assert h.f.nextId == IdOf(h.issued);
  }

  lemma BurnIdKeepsHistory(h: History)
    requires HistoryOk(h)
    ensures HistoryOk(History(BurnId(h.f), h.accepted, h.issued + 1))
  {
    BurnIdKeepsOutstanding(h.f);
    IdAdvances(h.issued);
    assert Live(BurnId(h.f)) == Live(h.f);
  }

  lemma SubmitKeepsHistory(h: History, q: Request)
    requires HistoryOk(h) && RequestOk(q)
    ensures HistoryOk(Next(h, Submits(q)))
    ensures h.accepted <= Next(h, Submits(q)).accepted
  {
    hide Pump, HistoryOk, Ok, Full, NextIdAfter;
    PumpKeepsHistory(h);
    var g := h.(f := Pump(h.f));
    if !q.BadArguments? && !Full(g.f) {
      if q.Unbuildable? {
        BurnIdKeepsHistory(g);
      } else {
        EnqueueKeepsHistory(g, q.program);
        var e := History(Enqueue(g.f, q.program), g.accepted + [Entry(g.issued, Transfer(g.f.nextId, q.program))],
            g.issued + 1);
        PumpKeepsHistory(e);
        assert Next(h, Submits(q)) == e.(f := Pump(e.f));
      }
    }
  }

  lemma StepKeepsHistory(h: History, step: Step)
    requires HistoryOk(h) && StepOk(step)
    ensures HistoryOk(Next(h, step))
    ensures h.accepted <= Next(h, step).accepted
  {
    match step
    case ChannelWorks =>
      ChannelStepKeepsEventually(h.f);
      assert Live(ChannelStep(h.f)) == Live(h.f);
    case Polls => PumpKeepsHistory(h);
    case Submits(q) => SubmitKeepsHistory(h, q);
  }

  lemma StepIsSequential(h: History, step: Step)
    requires HistoryOk(h) && StepOk(step)
    ensures HistoryOk(Next(h, step)) && h.accepted <= Next(h, step).accepted
    ensures Eventually(Next(h, step).f)
         == DeliverAll(Eventually(h.f), Programs(Transfers(Next(h, step).accepted[|h.accepted|..])))
  {
    StepKeepsHistory(h, step);
    var added := Next(h, step).accepted[|h.accepted|..];
    match step
    case ChannelWorks => ChannelStepKeepsEventually(h.f);
    case Polls => PumpKeepsOutstanding(h.f);
    case Submits(q) =>
      SubmitIsSequential(h.f, q);
      hide HistoryOk, Ok, Eventually, Submit, Pump;
      var (t, id) := Submit(h.f, q);
      if id != 0 {
        assert added == [Entry(h.issued, Transfer(id, q.program))];
        var ts := Transfers(added);
        assert Programs(ts) == ts[0].program + Programs(ts[1..]) == q.program;
      } else {
        assert added == [];
      }
  }

  ghost function Run(h: History, steps: seq<Step>): (r: History)
    requires HistoryOk(h) && forall i | 0 <= i < |steps| :: StepOk(steps[i])
    ensures HistoryOk(r) && h.accepted <= r.accepted
    decreases |steps|
  {
    if steps == [] then h
    else
      StepKeepsHistory(h, steps[0]);
      Run(Next(h, steps[0]), steps[1..])
  }

  /** Over any interleaving of submissions, polls and channel progress, IOP memory will end up
      as if the accepted transfers had been applied one after the other. */
  lemma {:induction false} RunIsSequential(h: History, steps: seq<Step>)
    requires HistoryOk(h) && forall i | 0 <= i < |steps| :: StepOk(steps[i])
    ensures Eventually(Run(h, steps).f)
         == DeliverAll(Eventually(h.f), Programs(Transfers(Run(h, steps).accepted[|h.accepted|..])))
    ensures Idle(Run(h, steps).f) ==> Run(h, steps).f.iop == Eventually(Run(h, steps).f)
    decreases |steps|
  {
    if Idle(Run(h, steps).f) {
      IdleHasDrained(Run(h, steps).f);
    }
    if steps != [] {
      StepIsSequential(h, steps[0]);
      hide Next, Eventually, Idle, HistoryOk, StepOk;
      RunIsSequential(Next(h, steps[0]), steps[1..]);
      LogsCompose(Eventually(h.f), h.accepted, Next(h, steps[0]).accepted, Run(h, steps).accepted);
    }
  }

  lemma LogsCompose(m: IopMemory, a: seq<Entry>, b: seq<Entry>, c: seq<Entry>)
    requires a <= b <= c
    ensures DeliverAll(DeliverAll(m, Programs(Transfers(b[|a|..]))), Programs(Transfers(c[|b|..])))
         == DeliverAll(m, Programs(Transfers(c[|a|..])))
  {
    var first, rest := b[|a|..], c[|b|..];
    assert c[|a|..] == first + rest;
    assert Transfers(first + rest) == Transfers(first) + Transfers(rest);
    ProgramsAppend(Transfers(first), Transfers(rest));
    DeliverInParts(m, Programs(Transfers(first)), Programs(Transfers(rest)));
  }

  /** In particular from reset: once idle, memory is the accepted transfers in order. */
  lemma RunFromReset(iop: IopMemory, steps: seq<Step>)
    requires forall i | 0 <= i < |steps| :: StepOk(steps[i])
    ensures HistoryOk(Initial(iop))
    ensures var r := Run(Initial(iop), steps);
            Idle(r.f) ==> r.f.iop == DeliverAll(iop, Programs(Transfers(r.accepted)))
  {
    IdleHasDrained(Initial(iop).f);
    var r := Run(Initial(iop), steps);
    RunIsSequential(Initial(iop), steps);
    assert r.accepted[0..] == r.accepted;
  }

  // ---------------------------------------------------------------- status

  /** The true status of accepted transfer `e`: 1 queued, 0 running, -1 finished and retired. */
  function Status(h: History, e: nat): int {
    if e >= Started(h) then 1 else if e >= OldestLive(h) then 0 else -1
  }

  /** A transfer never goes back from finished to running or from running to queued. */
  lemma StatusOnlyAdvances(h: History, step: Step, e: nat)
    requires HistoryOk(h) && StepOk(step) && e < |h.accepted|
    ensures Status(Next(h, step), e) <= Status(h, e)
  {
    hide NextIdAfter, IdOf, Transfers;
    if step.Submits? {
      SubmitOnlyAdvances(h, step.q, e);
    }
  }

  lemma SubmitOnlyAdvances(h: History, q: Request, e: nat)
    requires HistoryOk(h) && RequestOk(q) && e < |h.accepted|
    ensures Status(Next(h, Submits(q)), e) <= Status(h, e)
  {
    hide HistoryOk, Ok, NextIdAfter, Pump;
    PumpOnlyShortens(h.f);
    if q.Compiles? && !Full(Pump(h.f)) {
      LiveGrows(Pump(h.f), q.program);
      PumpOnlyShortens(Enqueue(Pump(h.f), q.program));
    }
    PumpKeepsHistory(h);
  }

  lemma PumpOnlyShortens(f: Fifo)
    ensures |Live(Pump(f))| <= |Live(f)| && |Pump(f).waiting| <= |f.waiting|
  {
  }

  /** What `ee_sif_dma_stat` answers when ids in the slots are distinct. */
  function Report(f: Fifo, id: int): int {
    if f.running.Some? && f.running.value.id == id then 0 else if InQueue(f.waiting, id) then 1 else -1
  }

  lemma DistinctTickets(a: nat, b: nat)
    requires a < b && b - a < MAX_ID
    ensures IdOf(a) != IdOf(b)
  {
  }

  /** Fewer than 2^31 - 1 ids have been handed out since log entry `e`. */
  ghost predicate Recent(h: History, e: int)
    requires 0 <= e <= |h.accepted|
  {
    e < |h.accepted| ==> h.issued - h.accepted[e].ticket <= MAX_ID
  }

  lemma RecentIdsDiffer(h: History, e: nat, d: nat)
    requires HistoryOk(h) && e < d < |h.accepted| && Recent(h, e)
    ensures h.accepted[e].transfer.id != h.accepted[d].transfer.id
  {
    DistinctTickets(h.accepted[e].ticket, h.accepted[d].ticket);
  }

  /** While the oldest live transfer is recent, no two slots carry the same id. */
  lemma LiveIdsDiffer(h: History, i: nat, j: nat)
    requires HistoryOk(h) && Recent(h, OldestLive(h)) && i < j < |Live(h.f)|
    ensures Live(h.f)[i].id != Live(h.f)[j].id
  {
    var o := OldestLive(h);
    assert h.accepted[o].ticket <= h.accepted[o + i].ticket;
    RecentIdsDiffer(h, o + i, o + j);
  }

  /** Another live transfer that a poll for `e` finds first: any, once `e` is finished; the running
      one, while `e` is still queued. */
  predicate Masks(h: History, e: nat, d: nat) {
    && OldestLive(h) <= d < |h.accepted| && d != e
    && (Status(h, e) == -1 || (Status(h, e) == 1 && d < Started(h)))
  }

  lemma SameIdExactly(h: History, e: nat, d: nat)
    requires HistoryOk(h) && e < |h.accepted| && d < |h.accepted|
    ensures h.accepted[e].transfer.id == h.accepted[d].transfer.id
            <==> (h.accepted[d].ticket - h.accepted[e].ticket) % MAX_ID == 0
  {
    SameRemainder(h.accepted[e].ticket, h.accepted[d].ticket);
  }

  lemma SameRemainder(a: nat, b: nat)
    ensures IdOf(a) == IdOf(b) <==> (b - a) % MAX_ID == 0
  {
  }

  lemma LiveAt(h: History, i: nat)
    requires HistoryOk(h) && i < |Live(h.f)|
    ensures 0 <= OldestLive(h) && OldestLive(h) + i < |h.accepted|
            && Live(h.f)[i] == h.accepted[OldestLive(h) + i].transfer
  {
  }

  /** For every accepted transfer: a poll is right exactly when no transfer that masks it is a
      multiple of 2^31 - 1 ids away. */
  lemma ReportIsTrueExactly(h: History, e: nat)
    requires HistoryOk(h) && e < |h.accepted|
    ensures Report(h.f, h.accepted[e].transfer.id) == Status(h, e)
            <==> forall d: nat | Masks(h, e, d) :: (h.accepted[d].ticket - h.accepted[e].ticket) % MAX_ID != 0
  {
    var id, o := h.accepted[e].transfer.id, OldestLive(h);
    hide HistoryOk, IdOf;
    forall d: nat | d < |h.accepted|
      ensures h.accepted[d].transfer.id == id <==> (h.accepted[d].ticket - h.accepted[e].ticket) % MAX_ID == 0
    {
      SameIdExactly(h, e, d);
    }
    forall i: nat | i < |Live(h.f)|
      ensures 0 <= o && o + i < |h.accepted| && Live(h.f)[i] == h.accepted[o + i].transfer
    {
      LiveAt(h, i);
    }
    ReportByPosition(h, e, id);
  }

  /** In particular while the transfer and the oldest live one are recent. */
  lemma ReportIsTrue(h: History, e: nat)
    requires HistoryOk(h) && e < |h.accepted| && Recent(h, e) && Recent(h, OldestLive(h))
    ensures Report(h.f, h.accepted[e].transfer.id) == Status(h, e)
  {
    hide Report, Status, IdOf;
    ReportIsTrueExactly(h, e);
    forall d: nat | OldestLive(h) <= d < |h.accepted| && d != e
      ensures (h.accepted[d].ticket - h.accepted[e].ticket) % MAX_ID != 0
    {
      var o := OldestLive(h);
      assert h.accepted[o].ticket <= h.accepted[d].ticket;
      NotAMultiple(h.accepted[d].ticket - h.accepted[e].ticket);
    }
  }

  lemma NotAMultiple(x: int)
    requires -MAX_ID < x < MAX_ID && x != 0
    ensures x % MAX_ID != 0
  {
  }

  /** The poll's answer in terms of positions in the log. */
  lemma ReportByPosition(h: History, e: nat, id: int)
    requires e < |h.accepted| && id == h.accepted[e].transfer.id && 0 <= OldestLive(h)
    requires forall i: nat | i < |Live(h.f)| :: Live(h.f)[i] == h.accepted[OldestLive(h) + i].transfer
    ensures Report(h.f, id) == Status(h, e)
            <==> forall d: nat | Masks(h, e, d) :: h.accepted[d].transfer.id != id
  {
    var o, s := OldestLive(h), Started(h);
    forall i: nat | i < |h.f.waiting|
      ensures h.f.waiting[i] == h.accepted[s + i].transfer
    {
      assert Live(h.f)[s - o + i] == h.f.waiting[i];
    }
    if h.f.running.Some? {
      assert Live(h.f)[0] == h.f.running.value == h.accepted[o].transfer;
    }
    if d: nat :| Masks(h, e, d) && h.accepted[d].transfer.id == id {
      if d < s {
        assert d == o && h.f.running.value.id == id;
      } else {
        assert h.f.waiting[d - s].id == id;
      }
    } else if e < o {
      assert forall d: nat | o <= d < |h.accepted| :: Masks(h, e, d);
      assert h.f.running.Some? ==> h.accepted[o].transfer.id != id;
    } else if e >= s {
      assert h.f.waiting[e - s].id == id;
      assert h.f.running.Some? ==> Masks(h, e, o);
    }
  }

  /** Submissions of lists that do not compile: each uses up an id. */
  function Burns(n: nat): (steps: seq<Step>)
    ensures |steps| == n && forall i | 0 <= i < n :: steps[i] == Submits(Unbuildable)
  {
    seq(n, _ => Submits(Unbuildable))
  }

  lemma BurnOne(h: History)
    requires HistoryOk(h) && Live(h.f) == []
    ensures var r := Next(h, Submits(Unbuildable));
            r.accepted == h.accepted && r.issued == h.issued + 1 && Live(r.f) == []
  {
    IdAdvances(h.issued);
  }

  lemma {:induction false} BurningIds(h: History, n: nat)
    requires HistoryOk(h) && Live(h.f) == []
    ensures var r := Run(h, Burns(n)); r.accepted == h.accepted && r.issued == h.issued + n && Live(r.f) == []
    decreases n
  {
    hide HistoryOk, Next;
    if n > 0 {
      BurnOne(h);
      StepKeepsHistory(h, Submits(Unbuildable));
      assert Burns(n)[1..] == Burns(n - 1);
      BurningIds(Next(h, Submits(Unbuildable)), n - 1);
    }
  }

  /** An idle queue starts what it accepts at once. */
  lemma IdleStarts(h: History, program: seq<Record>)
    requires HistoryOk(h) && Live(h.f) == [] && program != []
    ensures var r := Next(h, Submits(Compiles(program)));
            && r.issued == h.issued + 1 && r.f.waiting == [] && r.f.running == Some(Transfer(IdOf(h.issued), program))
            && r.accepted == h.accepted + [Entry(h.issued, Transfer(IdOf(h.issued), program))]
  {
    IdAdvances(h.issued);
  }

  /** The bound is exact: one id more, and a poll for a finished transfer answers for a newer one. */
  lemma ReusedIdMisreports(h: History, e: nat, program: seq<Record>)
    requires HistoryOk(h) && Live(h.f) == [] && e < |h.accepted| && Recent(h, e) && program != []
    ensures var b := Run(h, Burns(MAX_ID - (h.issued - h.accepted[e].ticket)));
            var r := Next(b, Submits(Compiles(program)));
            && e < |b.accepted| && Recent(b, e) && e < |r.accepted| && !Recent(r, e)
            && r.accepted[e] == h.accepted[e]
            && Status(r, e) == -1 && Report(r.f, h.accepted[e].transfer.id) == 0
  {
    hide Next, Run, Burns;
    var n := MAX_ID - (h.issued - h.accepted[e].ticket);
    BurningIds(h, n);
    IdleStarts(Run(h, Burns(n)), program);
    assert IdOf(h.accepted[e].ticket + MAX_ID) == IdOf(h.accepted[e].ticket);
  }

  // ---------------------------------------------------------------- draining

  /** One poll after one record's worth of channel progress. */
  ghost function Round(f: Fifo): (r: Fifo)
    requires Ok(f)
    ensures Ok(r)
  {
    ChannelStepKeepsEventually(f);
    PumpKeepsOutstanding(ChannelStep(f));
    Pump(ChannelStep(f))
  }

  ghost function Rounds(f: Fifo, n: nat): (r: Fifo)
    requires Ok(f)
    ensures Ok(r)
    decreases n
  {
    if n == 0 then f else Rounds(Round(f), n - 1)
  }

  ghost function WorkLeft(f: Fifo): nat
    requires Ok(f)
  {
    |Outstanding(f)| + |f.waiting|
  }

  lemma RoundMakesProgress(f: Fifo)
    requires Ok(f)
    ensures Eventually(Round(f)) == Eventually(f)
    ensures if Idle(f) then Idle(Round(f)) else WorkLeft(Round(f)) < WorkLeft(f)
  {
    hide Outstanding, Eventually, Pump, Ok;
    ChannelStepKeepsEventually(f);
    PumpKeepsOutstanding(ChannelStep(f));
  }

  /** However the queue was filled, polling while the channel works drains it. */
  lemma {:induction false} PollingDrains(f: Fifo, n: nat)
    requires Ok(f) && n >= WorkLeft(f)
    ensures Idle(Rounds(f, n)) && Rounds(f, n).iop == Eventually(f)
    decreases n
  {
    hide Round, Eventually, Ok, Idle, WorkLeft;
    if n == 0 {
      NoWorkLeft(f);
    } else {
      RoundMakesProgress(f);
      if Idle(f) {
        NoWorkLeft(Round(f));
      }
      PollingDrains(Round(f), n - 1);
    }
  }

  lemma NoWorkLeft(f: Fifo)
    requires Ok(f)
    ensures WorkLeft(f) == 0 <==> Idle(f)
    ensures Idle(f) ==> f.iop == Eventually(f)
  {
    hide Eventually;
    if Idle(f) {
      IdleHasDrained(f);
    }
  }
}
