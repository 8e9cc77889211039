/** Which IOP heap blocks of the SIF broker lose their owner: exactly, by step and over runs. */
module BrokerOwners {
  import opened Bytes
  import opened BrokerModel
  import opened BrokerLedger
  import opened BrokerRuns

  // ---------------------------------------------------------------- owners

  /** The block is in the guest's table. */
  predicate Tabled(s: Broker, a: u32) {
    a != 0 && a in s.addrs
  }

  /** The block waits in the deferred-free queue. */
  predicate Queued(s: Broker, a: u32)
    requires Shape(s)
  {
    a != 0 && s.pendingCount == 1 && a == s.pending[0]
  }

  /** The block holds the image of the load in flight. */
  predicate Staged(s: Broker, a: u32) {
    a != 0 && s.lmbInFlight && a == s.lmbStaging
  }

  predicate Owned(s: Broker, a: u32)
    requires Shape(s)
  {
    Tabled(s, a) || Queued(s, a) || Staged(s, a)
  }

  /** Out, and nothing in the broker remembers it. */
  predicate Ownerless(s: Broker, a: u32)
    requires Shape(s)
  {
    a in s.heap.live && !Owned(s, a)
  }

  /** The step's checks pass, so it empties the deferred-free queue. */
  predicate Drains(s: Broker, step: Step)
    requires Shape(s)
  {
    match step
    case DoClose(_) => s.active
    case DoTransfer(ee, iop, len, _, _) =>
      s.active && ee != 0 && 0 < len <= MAX_IOP_XFER && !Unaligned(ee, len) && !Unaligned(iop, len)
    case DoAlloc(len, out, _, _) => s.active && out != 0 && len != 0
    case DoFree(addr, _) => s.active && Tabled(s, addr)
    case DoBind(c, _, _) => Submits(s, c)
    case DoCall(c, send, recv, _, _) =>
      Submits(s, c) && ClientOf(s, c).server != 0 && ClientOf(s, c).buf != 0 && CheckBuffers(send, recv) == OK
    case DoLoadBuffer(c, irx, irxLen, args, argsLen, _, _) =>
      Submits(s, c) && !s.lmbInFlight && irx != 0 && irxLen != 0 && ArgsOk(args, argsLen)
    case DoLoadPath(c, noPath, path, args, argsLen, _, _) =>
      Submits(s, c) && !s.lmbInFlight && !noPath && ArgsOk(args, argsLen) && Rom0Path(path)
    case _ => false
  }

  predicate Submits(s: Broker, c: u32) {
    s.active && !NoSuchClient(s, c) && ClientOf(s, c).status != InFlight
  }

  predicate ArgsOk(args: u32, argsLen: u32) {
    argsLen <= MAX_MODULE_ARGS && (argsLen == 0 || args != 0)
  }

  function RefusedBy(step: Step): set<u32> {
    match step
    case DoClose(refuses) => refuses
    case DoTransfer(_, _, _, _, refuses) => refuses
    case DoAlloc(_, _, _, refuses) => refuses
    case DoFree(_, refuses) => refuses
    case DoBind(_, _, refuses) => refuses
    case DoCall(_, _, _, _, refuses) => refuses
    case DoLoadBuffer(_, _, _, _, _, _, refuses) => refuses
    case DoLoadPath(_, _, _, _, _, _, refuses) => refuses
    case _ => {}
  }

  /** The step is given block `a` and hands it back at once: the table is full, the image could not
      be written, or no packet slot is free. */
  predicate HandsBack(s: Broker, step: Step, a: u32)
    requires Shape(s)
  {
    && a != 0 && Drains(s, step)
    && match step
       case DoAlloc(_, _, grant, _) => a == grant && 0 !in s.addrs
       case DoLoadBuffer(_, _, _, _, _, env, _) =>
         a == env.grant && (s.loadfileBound || env.bound) && (!env.written || 0 !in s.slots)
       case _ => false
  }

  /** The blocks a step loses: open forgets the table and the block being loaded, close forgets the
      latter, and a block the IOP refuses to take back is forgotten, except by free. */
  predicate Loses(s: Broker, step: Step, a: u32)
    requires Shape(s)
  {
    || (step.DoOpen? && (Tabled(s, a) || Staged(s, a)))
    || (step.DoClose? && s.active && Staged(s, a))
    || (step.DoClose? && s.active && Tabled(s, a) && a in RefusedBy(step))
    || (Drains(s, step) && Queued(s, a) && a in RefusedBy(step))
    || (HandsBack(s, step, a) && a in RefusedBy(step))
  }

  // ---------------------------------------------------------------- each step

  /** What ownership depends on. */
  ghost predicate SameOwners(s: Broker, t: Broker) {
    && s.heap.live == t.heap.live && s.addrs == t.addrs && s.pending == t.pending && s.pendingCount == t.pendingCount
    && s.lmbInFlight == t.lmbInFlight && s.lmbStaging == t.lmbStaging
  }

  lemma DrainExactly(s: Broker, refuses: set<u32>)
    requires LedgerOk(s)
    ensures var d := Drain(s, refuses);
            && LedgerOk(d) && d == s.(heap := d.heap, pending := d.pending, pendingCount := 0)
            && forall a :: a in d.heap.live <==> a in s.heap.live && (!Queued(s, a) || a in refuses)
  {
    hide HeapOk, FreeAll;
    DrainKeeps(s, refuses);
    var q := s.pending[..Drained(s)];
    FreeAllKeeps(s.heap, q, refuses);
    assert forall a :: a in q <==> s.pendingCount == 1 && a == s.pending[0];
  }

  lemma OwnedAreLive(s: Broker, a: u32)
    requires LedgerOk(s) && Owned(s, a)
    ensures a in s.heap.live
  {
    hide HeapOk;
  }

  lemma DrainLosesExactly(s: Broker, refuses: set<u32>, a: u32)
    requires LedgerOk(s)
    ensures Ownerless(Drain(s, refuses), a) <==> Ownerless(s, a) || (Queued(s, a) && a in refuses)
  {
    hide HeapOk, Drain;
    DrainExactly(s, refuses);
  }

  lemma OpenLosesExactly(s: Broker, a: u32)
    requires LedgerOk(s)
    ensures Ownerless(Open(s), a) <==> Ownerless(s, a) || Loses(s, DoOpen, a)
  {
    hide HeapOk;
  }

  lemma CloseLosesExactly(s: Broker, refuses: set<u32>, a: u32)
    requires LedgerOk(s)
    ensures Ownerless(Close(s, refuses), a) <==> Ownerless(s, a) || Loses(s, DoClose(refuses), a)
  {
    if s.active {
      var d := Drain(s, refuses);
      DrainExactly(s, refuses);
      FreeAllKeeps(d.heap, d.addrs, refuses);
      hide HeapOk, FreeAll, Drain;
    }
  }

  lemma Recorded(addrs: seq<u32>, slot: nat, grant: u32, a: u32)
    requires slot < |addrs| && addrs[slot] == 0 && a != 0
    ensures a in addrs[slot := grant] <==> a == grant || a in addrs
  {
    var t := addrs[slot := grant];
    assert t[slot] == grant;
    if k :| 0 <= k < |addrs| && addrs[k] == a {
      assert t[k] == a;
    }
  }

  lemma Erased(addrs: seq<u32>, slot: nat, a: u32)
    requires slot < |addrs| && addrs[slot] != 0 && a != 0 && DistinctBlocks(addrs)
    ensures a in addrs[slot := 0] <==> a != addrs[slot] && a in addrs
  {
    var t := addrs[slot := 0];
    if k :| 0 <= k < |addrs| && addrs[k] == a && k != slot {
      assert t[k] == a;
    }
  }

  lemma HandedBackExactly(d: Broker, grant: u32, refuses: set<u32>, a: u32)
    requires LedgerOk(d) && grant != 0 && grant !in d.heap.live
    ensures Ownerless(d.(heap := FreeBlock(TakeBlock(d.heap, grant), grant, refuses)), a)
            <==> Ownerless(d, a) || (a == grant && a in refuses)
  {
    hide HeapOk;
  }

  lemma RecordedLosesNothing(d: Broker, slot: nat, grant: u32, a: u32)
    requires LedgerOk(d) && grant != 0 && grant !in d.heap.live && slot < MAX_IOP_ALLOCS && d.addrs[slot] == 0
    ensures Ownerless(d.(heap := TakeBlock(d.heap, grant), addrs := d.addrs[slot := grant]), a) <==> Ownerless(d, a)
  {
    hide HeapOk;
    if a != 0 {
      Recorded(d.addrs, slot, grant, a);
    }
  }

  lemma AllocLosesExactly(s: Broker, step: Step, a: u32)
    requires LedgerOk(s) && step.DoAlloc? && Enabled(s, step)
    ensures Ownerless(Next(s, step), a) <==> Ownerless(s, a) || Loses(s, step, a)
  {
    hide LedgerOk, Drain, Ownerless, TakeBlock, FreeBlock, Queued;
    LedgerShape(s);
    if Drains(s, step) {
      var d := Drain(s, step.refuses);
      DrainExactly(s, step.refuses);
      DrainLosesExactly(s, step.refuses, a);
      var slot := Find(s.addrs, 0, 0);
      if step.grant != 0 && slot >= 0 {
        RecordedLosesNothing(d, slot, step.grant, a);
      } else if step.grant != 0 {
        HandedBackExactly(d, step.grant, step.refuses, a);
      }
    }
  }

  lemma FreeLosesExactly(s: Broker, step: Step, a: u32)
    requires LedgerOk(s) && step.DoFree?
    ensures Ownerless(Next(s, step), a) <==> Ownerless(s, a) || Loses(s, step, a)
  {
    hide HeapOk, Drain;
    DrainExactly(s, step.refuses);
    DrainLosesExactly(s, step.refuses, a);
    var slot := Find(s.addrs, step.addr, 0);
    if Drains(s, step) && slot >= 0 && a != 0 {
      Erased(s.addrs, slot, a);
    }
  }

  lemma SendKeepsOwners(s: Broker, slot: nat, c: u32, op: Op, sent: bool)
    requires Shape(s) && slot < PKT_COUNT && c != 0
    ensures SameOwners(s, SendFor(s, slot, c, op, sent).0)
  {
  }

  lemma BindAndCallDrain(s: Broker, step: Step)
    requires Shape(s) && (step.DoBind? || step.DoCall?)
    ensures if Drains(s, step) then SameOwners(Drain(s, step.refuses), Next(s, step)) else Next(s, step) == s
  {
    hide Drain, SendFor, CheckBuffers;
    var d := Drain(s, step.refuses);
    var slot := Find(d.slots, 0, 0);
    if slot >= 0 && step.c != 0 {
      SendKeepsOwners(d, slot, step.c, Bind, step.sent);
      SendKeepsOwners(d, slot, step.c, Call, step.sent);
    }
  }

  lemma BindAndCallLoseExactly(s: Broker, step: Step, a: u32)
    requires LedgerOk(s) && (step.DoBind? || step.DoCall?)
    ensures Ownerless(Next(s, step), a) <==> Ownerless(s, a) || Loses(s, step, a)
  {
    hide LedgerOk, Drain, Next, Ownerless, Drains, SameOwners;
    LedgerShape(s);
    BindAndCallDrain(s, step);
    if Drains(s, step) {
      DrainLosesExactly(s, step.refuses, a);
      SameOwnersSameLosses(Drain(s, step.refuses), Next(s, step), a);
    }
  }

  /** A block taken for an image is staged, or queued when sending fails. */
  lemma StagedLosesNothing(d: Broker, grant: u32, a: u32)
    requires LedgerOk(d) && d.pendingCount == 0 && !d.lmbInFlight && grant != 0 && grant !in d.heap.live
    ensures var t := d.(heap := TakeBlock(d.heap, grant), lmbStaging := grant);
            && (Ownerless(t.(lmbInFlight := true), a) <==> Ownerless(d, a))
            && (Ownerless(Push(t, grant), a) <==> Ownerless(d, a))
  {
    hide HeapOk;
  }

  lemma SameOwnersSameLosses(s: Broker, t: Broker, a: u32)
    requires Shape(s) && Shape(t) && SameOwners(s, t)
    ensures Ownerless(s, a) <==> Ownerless(t, a)
  {
  }

  /** The first half of both loads. */
  lemma PrepareDrains(s: Broker, c: u32, env: LoadReplies, refuses: set<u32>)
    requires Shape(s)
    ensures var (d, rc) := PrepareLoad(s, c, env, refuses);
            if ClientOf(s, c).status == InFlight || s.lmbInFlight then d == s && rc == EBUSY
            else SameOwners(Drain(s, refuses), d) && d.slots == s.slots && d.lmbInFlight == s.lmbInFlight
                 && (rc == OK <==> s.loadfileBound || env.bound)
  {
    hide FreeAll, Zeroed;
  }

  lemma LoadBufferOutcome(s: Broker, step: Step)
    requires Shape(s) && step.DoLoadBuffer?
    ensures var t, env := Next(s, step), step.env;
            var (d, rc) := PrepareLoad(s, step.c, env, step.refuses);
            var taken, slot := d.(heap := TakeBlock(d.heap, env.grant)), Find(d.slots, 0, 0);
            if !Drains(s, step) then t == s
            else if rc != OK || env.grant == 0 then t == d
            else if !env.written || slot < 0 then t == d.(heap := FreeBlock(taken.heap, env.grant, step.refuses))
            else t == SendImage(taken, slot, step.c, env.grant, env.sent).0
  {
    hide Drain, Find, TakeBlock, FreeBlock, SendImage;
  }

  lemma LoadBufferLosesExactly(s: Broker, step: Step, a: u32)
    requires LedgerOk(s) && step.DoLoadBuffer? && Enabled(s, step)
    ensures Ownerless(Next(s, step), a) <==> Ownerless(s, a) || Loses(s, step, a)
  {
    hide Next, PrepareLoad, Drain, LedgerOk, Ownerless, SendImage, TakeBlock, FreeBlock, Queued;
    LedgerShape(s);
    LoadBufferOutcome(s, step);
    var c, env, refuses := step.c, step.env, step.refuses;
    var (d, rc) := PrepareLoad(s, c, env, refuses);
    if Drains(s, step) {
      PrepareKeeps(s, c, env, refuses);
      PrepareDrains(s, c, env, refuses);
      DrainLosesExactly(s, refuses, a);
      SameOwnersSameLosses(Drain(s, refuses), d, a);
      var slot := Find(d.slots, 0, 0);
      if rc == OK && env.grant != 0 {
        HandedBackExactly(d, env.grant, refuses, a);
        if slot >= 0 && env.written {
          SentImage(d, slot, c, env, a);
        }
      }
    }
  }

  lemma SentImage(d: Broker, slot: nat, c: u32, env: LoadReplies, a: u32)
    requires LedgerOk(d) && d.pendingCount == 0 && !d.lmbInFlight && env.grant != 0 && env.grant !in d.heap.live
    requires slot < PKT_COUNT && c != 0
    ensures Ownerless(SendImage(d.(heap := TakeBlock(d.heap, env.grant)), slot, c, env.grant, env.sent).0, a)
            <==> Ownerless(d, a)
  {
    hide SendFor;
    var staged := d.(heap := TakeBlock(d.heap, env.grant), lmbInFlight := true, lmbStaging := env.grant);
    StagedLosesNothing(d, env.grant, a);
    SendKeepsOwners(staged, slot, c, Lmb, env.sent);
    hide LedgerOk;
  }

  lemma SentPath(d: Broker, slot: nat, c: u32, sent: bool, a: u32)
    requires Shape(d) && !d.lmbInFlight && slot < PKT_COUNT && c != 0
    ensures var (r, rc) := SendFor(d.(lmbInFlight := true, lmbStaging := 0), slot, c, Lmb, sent);
            Ownerless(if rc == EINFLIGHT then r else r.(lmbInFlight := false), a) <==> Ownerless(d, a)
  {
    hide SendFor;
    SendKeepsOwners(d.(lmbInFlight := true, lmbStaging := 0), slot, c, Lmb, sent);
  }

  lemma LoadPathOutcome(s: Broker, step: Step)
    requires Shape(s) && step.DoLoadPath?
    ensures var t, env := Next(s, step), step.env;
            var (d, rc) := PrepareLoad(s, step.c, env, step.refuses);
            var slot := Find(d.slots, 0, 0);
            if !Drains(s, step) then t == s
            else if rc != OK || slot < 0 then t == d
            else
              var (r, code) := SendFor(d.(lmbInFlight := true, lmbStaging := 0), slot, step.c, Lmb, env.sent);
              t == if code == EINFLIGHT then r else r.(lmbInFlight := false)
  {
    hide Drain, Find, SendFor, Rom0Path;
  }

  lemma LoadPathLosesExactly(s: Broker, step: Step, a: u32)
    requires LedgerOk(s) && step.DoLoadPath?
    ensures Ownerless(Next(s, step), a) <==> Ownerless(s, a) || Loses(s, step, a)
  {
    hide Next, PrepareLoad, Drain, LedgerOk, SendFor, Rom0Path, Ownerless, Queued, Drains;
    LedgerShape(s);
    LoadPathOutcome(s, step);
    var (d, rc) := PrepareLoad(s, step.c, step.env, step.refuses);
    if Drains(s, step) {
      PreparedPathLoses(s, step, a);
      var slot := Find(d.slots, 0, 0);
      if rc == OK && slot >= 0 {
        SentPath(d, slot, step.c, step.env.sent, a);
      }
    }
  }

  lemma PreparedPathLoses(s: Broker, step: Step, a: u32)
    requires LedgerOk(s) && step.DoLoadPath? && Drains(s, step)
    ensures step.c != 0 && !HandsBack(s, step, a)
    ensures var (d, rc) := PrepareLoad(s, step.c, step.env, step.refuses);
            !d.lmbInFlight && (Ownerless(d, a) <==> Ownerless(s, a) || (Queued(s, a) && a in step.refuses))
  {
    hide PrepareLoad, Drain, LedgerOk, Ownerless, Queued, Rom0Path;
    LedgerShape(s);
    PrepareDrains(s, step.c, step.env, step.refuses);
    DrainLosesExactly(s, step.refuses, a);
    SameOwnersSameLosses(Drain(s, step.refuses), PrepareLoad(s, step.c, step.env, step.refuses).0, a);
  }

  lemma ReplyLosesNothing(s: Broker, r: Reply, a: u32)
    requires Inv(s)
    ensures Ownerless(OnReply(s, r), a) <==> Ownerless(s, a)
  {
    if r.cd == 0 || r.cd !in s.slots {
      StrayReplyIsIgnored(s, r);
    } else {
      var i := Find(s.slots, r.cd, 0);
      assert i >= 0 && HolderOk(s, s.slots[i]);
      assert s.clients[r.cd].op == Lmb ==> Loads(s, i);
      hide HeapOk, HistoryOk, SlotsOk;
    }
  }

  /** A block has no owner after a step exactly when it had none before or the step loses it: what
      is lost stays lost, and nothing else is. */
  lemma StepLosesExactly(s: Broker, step: Step, a: u32)
    requires Inv(s) && Enabled(s, step)
    ensures Ownerless(Next(s, step), a) <==> Ownerless(s, a) || Loses(s, step, a)
  {
    hide LedgerOk, SlotsOk, HistoryOk, Drain, Unaligned;
    InvShape(s);
    match step {
      case DoOpen => OpenLosesExactly(s, a);
      case DoClose(refuses) => CloseLosesExactly(s, refuses, a);
      case DoTransfer(_, _, _, _, refuses) => DrainLosesExactly(s, refuses, a);
      case DoAlloc(_, _, _, _) => AllocLosesExactly(s, step, a);
      case DoFree(_, _) => FreeLosesExactly(s, step, a);
      case DoLoadBuffer(_, _, _, _, _, _, _) => LoadBufferLosesExactly(s, step, a);
      case DoLoadPath(_, _, _, _, _, _, _) => LoadPathLosesExactly(s, step, a);
      case DoReply(reply) => ReplyLosesNothing(s, reply, a);
      case DoInit(c, hasDone) => SameOwnersSameLosses(s, GuestInit(s, c, hasDone), a);
      case _ => BindAndCallLoseExactly(s, step, a);
    }
  }

  // ---------------------------------------------------------------- runs

  /** Some step of the run loses the block. */
  predicate RunLoses(s: Broker, steps: seq<Step>, a: u32)
    requires Shape(s)
    decreases |steps|
  {
    steps != [] && (Loses(s, steps[0], a) || RunLoses(Next(s, steps[0]), steps[1..], a))
  }

  lemma {:induction false} LostExactly(s: Broker, steps: seq<Step>, a: u32)
    requires Inv(s) && Possible(s, steps)
    ensures Ownerless(Run(s, steps), a) <==> Ownerless(s, a) || RunLoses(s, steps, a)
    decreases |steps|
  {
    hide Inv, Loses, Ownerless, Next;
    InvShape(s);
    if steps != [] {
      StepKeeps(s, steps[0]);
      StepLosesExactly(s, steps[0], a);
      LostExactly(Next(s, steps[0]), steps[1..], a);
    }
  }

  /** From power-on, every block that is out has an owner exactly when no step of the run loses one. */
  lemma NothingIsLostExactly(steps: seq<Step>)
    requires Possible(PowerOn(), steps)
    ensures (forall a | a in Run(PowerOn(), steps).heap.live :: Owned(Run(PowerOn(), steps), a))
            <==> forall a: u32 :: !RunLoses(PowerOn(), steps, a)
  {
    PowerOnOk();
    hide Inv, Owned;
    var t := Run(PowerOn(), steps);
    if forall a | a in t.heap.live :: Owned(t, a) {
      forall a: u32
        ensures !RunLoses(PowerOn(), steps, a)
      {
        LostExactly(PowerOn(), steps, a);
      }
    } else {
      var a :| a in t.heap.live && !Owned(t, a);
      LostExactly(PowerOn(), steps, a);
    }
  }

  /** The end of a session. Close loses, of the blocks it owned, exactly those the IOP refuses and the
      one being loaded; open after a crash keeps exactly the queued one. */
  lemma SessionEndLosesExactly(s: Broker, refuses: set<u32>, a: u32)
    requires Inv(s) && s.active && Owned(s, a)
    ensures var t := Close(s, refuses);
            a in t.heap.live && !Owned(t, a) <==> a in refuses || Staged(s, a)
    ensures a in Open(s).heap.live && (Owned(Open(s), a) <==> Queued(s, a))
  {
    hide LedgerOk, SlotsOk, HistoryOk, Close;
    OwnedAreLive(s, a);
    CloseLosesExactly(s, refuses, a);
  }
}
