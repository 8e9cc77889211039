/** Runs of the SIF broker: who holds a packet slot, and which submissions complete. */
module BrokerRuns {
  import opened Bytes
  import opened BrokerModel
  import opened BrokerLedger

  // ---------------------------------------------------------------- clients in slots

  ghost predicate HolderOk(s: Broker, c: u32) {
    c in s.clients && s.clients[c].status == InFlight && s.clients[c].hasDone && s.clients[c].op != NoOp
  }

  ghost predicate Loads(s: Broker, i: int) {
    0 <= i < |s.slots| && s.slots[i] != 0 && ClientOf(s, s.slots[i]).op == Lmb
  }

  /** Active clients are distinct and in flight, and one of them - only one - runs a module
      load exactly while the in-flight flag is up. */
  ghost predicate SlotsOk(s: Broker) {
    && (forall i | 0 <= i < |s.slots| && s.slots[i] != 0 :: HolderOk(s, s.slots[i]))
    && DistinctBlocks(s.slots)
    && (forall i | Loads(s, i) :: s.lmbInFlight)
    && (s.lmbInFlight ==> exists i :: Loads(s, i))
    && (forall i, j | Loads(s, i) && Loads(s, j) :: i == j)
  }

  /** A submission in a slot is accepted and has not fired; none fires twice. */
  ghost predicate HistoryOk(s: Broker)
    requires Shape(s)
  {
    && (forall i | 0 <= i < PKT_COUNT && s.slots[i] != 0 :: s.serials[i] < s.issued && s.serials[i] !in s.fired)
    && (forall i, j | 0 <= i < j < PKT_COUNT && s.slots[i] != 0 && s.slots[j] != 0 :: s.serials[i] != s.serials[j])
    && (forall k | 0 <= k < |s.fired| :: s.fired[k] < s.issued)
    && (forall i, j | 0 <= i < j < |s.fired| :: s.fired[i] != s.fired[j])
  }

  ghost predicate Inv(s: Broker) {
    LedgerOk(s) && SlotsOk(s) && HistoryOk(s)
  }

  lemma PowerOnOk()
    ensures Inv(PowerOn())
  {
  }

  /** What the slot bookkeeping of a broker depends on. */
  ghost predicate SameHolders(s: Broker, t: Broker) {
    s.slots == t.slots && s.clients == t.clients && s.lmbInFlight == t.lmbInFlight
    && s.issued == t.issued && s.serials == t.serials && s.fired == t.fired
  }

  lemma SameHoldersSameInvariant(s: Broker, t: Broker)
    requires SameHolders(s, t) && Shape(s) && Shape(t)
    ensures SlotsOk(s) ==> SlotsOk(t)
    ensures HistoryOk(s) ==> HistoryOk(t)
  {
    assert forall i :: Loads(s, i) <==> Loads(t, i);
    assert forall c :: HolderOk(s, c) <==> HolderOk(t, c);
  }

  lemma EmptySlotsOk(s: Broker)
    requires Shape(s) && HistoryOk(s) && !s.lmbInFlight && forall i | 0 <= i < PKT_COUNT :: s.slots[i] == 0
    ensures SlotsOk(s)
  {
  }

  // ---------------------------------------------------------------- submissions

  /** `s` is about to submit a client that is not in flight; for a module load the flag is up
      already, for anything else the flag agrees with the slots. */
  ghost predicate ReadyToSend(s: Broker, slot: int, c: u32, op: Op) {
    && Shape(s) && 0 <= slot < PKT_COUNT && s.slots[slot] == 0 && c != 0 && op != NoOp
    && ClientOf(s, c).hasDone && ClientOf(s, c).status != InFlight
    && SlotsOk(if op == Lmb then s.(lmbInFlight := false) else s) && HistoryOk(s)
    && (op == Lmb ==> s.lmbInFlight)
  }

  lemma SubmittedHolders(s: Broker, slot: int, c: u32, op: Op)
    requires ReadyToSend(s, slot, c, op)
    ensures SlotsOk(Submit(s, slot, c, op))
  {
    var t := Submit(s, slot, c, op);
    var b := if op == Lmb then s.(lmbInFlight := false) else s;
    assert forall i | 0 <= i < PKT_COUNT && s.slots[i] != 0 :: HolderOk(b, s.slots[i]);
    assert c !in s.slots;
    forall i | 0 <= i < PKT_COUNT && t.slots[i] != 0
      ensures HolderOk(t, t.slots[i])
    {
      if i != slot {
        assert HolderOk(b, s.slots[i]);
      }
    }
    forall i | i != slot
      ensures Loads(t, i) <==> Loads(b, i)
    {
    }
    assert !Loads(b, slot);
    assert Loads(t, slot) <==> op == Lmb;
  }

  lemma WithdrawnHolders(s: Broker, slot: int, c: u32, op: Op)
    requires ReadyToSend(s, slot, c, op)
    ensures var w := Withdraw(Submit(s, slot, c, op), slot, c);
            && w.slots == s.slots && SlotsOk(w.(lmbInFlight := if op == Lmb then false else s.lmbInFlight))
  {
    var b := if op == Lmb then s.(lmbInFlight := false) else s;
    var w := Withdraw(Submit(s, slot, c, op), slot, c).(lmbInFlight := b.lmbInFlight);
    assert w.slots == s.slots;
    assert forall i | 0 <= i < PKT_COUNT && s.slots[i] != 0 :: HolderOk(b, s.slots[i]);
    assert c !in s.slots;
    assert forall i :: Loads(w, i) <==> Loads(b, i);
  }

  lemma SendKeepsHolders(s: Broker, slot: int, c: u32, op: Op, sent: bool)
    requires ReadyToSend(s, slot, c, op)
    ensures var (r, rc) := SendFor(s, slot, c, op, sent);
            && SlotsOk(if op == Lmb && rc != EINFLIGHT then r.(lmbInFlight := false) else r) && HistoryOk(r)
  {
    if sent {
      var p := Submit(s, slot, c, op);
      SubmittedHolders(s, slot, c, op);
      var r := Accept(p, slot);
      assert forall i :: Loads(p, i) <==> Loads(r, i);
      assert forall x :: HolderOk(p, x) <==> HolderOk(r, x);
      assert s.issued !in s.fired;
    } else {
      WithdrawnHolders(s, slot, c, op);
    }
  }

  lemma ReadyAfterDrain(s: Broker, d: Broker, c: u32, op: Op)
    requires Inv(s) && SameHolders(s, d) && Shape(d) && c != 0 && op in {Bind, Call}
    requires ClientOf(s, c).hasDone && ClientOf(s, c).status != InFlight && Find(d.slots, 0, 0) >= 0
    ensures ReadyToSend(d, Find(d.slots, 0, 0), c, op)
  {
    SameHoldersSameInvariant(s, d);
    hide SlotsOk, HistoryOk, LedgerOk;
  }

  lemma DrainKeepsHolders(s: Broker, refuses: set<u32>)
    requires Inv(s)
    ensures SameHolders(s, Drain(s, refuses)) && SlotsOk(Drain(s, refuses)) && HistoryOk(Drain(s, refuses))
  {
    SameHoldersSameInvariant(s, Drain(s, refuses));
  }

  lemma BindKeepsHolders(s: Broker, c: u32, sent: bool, refuses: set<u32>)
    requires Inv(s)
    ensures SlotsOk(RpcBind(s, c, sent, refuses).0) && HistoryOk(RpcBind(s, c, sent, refuses).0)
  {
    var d := Drain(s, refuses);
    DrainKeepsHolders(s, refuses);
    var slot := Find(d.slots, 0, 0);
    hide SlotsOk, HistoryOk, LedgerOk, Drain, SendFor, ReadyToSend, CheckBuffers;
    if s.active && !NoSuchClient(s, c) && ClientOf(s, c).status != InFlight && slot >= 0 {
      ReadyAfterDrain(s, d, c, Bind);
      SendKeepsHolders(d, slot, c, Bind, sent);
    }
  }

  predicate CanSubmit(s: Broker, c: u32) {
    s.active && !NoSuchClient(s, c) && ClientOf(s, c).status != InFlight && |s.slots| == PKT_COUNT
        && Find(s.slots, 0, 0) >= 0
  }

  lemma CallOutcomes(s: Broker, c: u32, send: Buffer, recv: Buffer, sent: bool, refuses: set<u32>)
    requires Shape(s)
    ensures var t, d := RpcCall(s, c, send, recv, sent, refuses).0, Drain(s, refuses);
            t == s || t == d || (CanSubmit(s, c) && t == SendFor(d, Find(s.slots, 0, 0), c, Call, sent).0)
  {
    hide CheckBuffers, SendFor, Drain;
    DrainLeavesSlots(s, refuses);
  }

  lemma DrainLeavesSlots(s: Broker, refuses: set<u32>)
    requires Shape(s)
    ensures Drain(s, refuses).slots == s.slots && Drain(s, refuses).clients == s.clients
  {
  }

  lemma CallKeepsHolders(s: Broker, c: u32, send: Buffer, recv: Buffer, sent: bool, refuses: set<u32>)
    requires Inv(s)
    ensures var t := RpcCall(s, c, send, recv, sent, refuses).0; SlotsOk(t) && HistoryOk(t)
  {
    var d := Drain(s, refuses);
    DrainKeepsHolders(s, refuses);
    DrainLeavesSlots(s, refuses);
    CallOutcomes(s, c, send, recv, sent, refuses);
    hide SlotsOk, HistoryOk, LedgerOk, Drain, SendFor, ReadyToSend, RpcCall;
    if CanSubmit(s, c) {
      ReadyAfterDrain(s, d, c, Call);
      SendKeepsHolders(d, Find(s.slots, 0, 0), c, Call, sent);
    }
  }

  lemma PrepareKeepsHolders(s: Broker, c: u32, env: LoadReplies, refuses: set<u32>)
    requires Inv(s)
    ensures var (d, rc) := PrepareLoad(s, c, env, refuses);
            && SameHolders(s, d) && (rc == OK ==> !s.lmbInFlight && ClientOf(s, c).status != InFlight)
  {
  }

  /** `r` is what a module load sends, with the flag raised and some staging block recorded. */
  lemma LoadSendKeepsHolders(s: Broker, d: Broker, c: u32, sent: bool)
    requires Inv(s) && !s.lmbInFlight && SameHolders(s.(lmbInFlight := true), d) && Shape(d) && !NoSuchClient(s, c)
    requires ClientOf(s, c).status != InFlight && Find(d.slots, 0, 0) >= 0
    ensures var (r, rc) := SendFor(d, Find(d.slots, 0, 0), c, Lmb, sent);
            && HistoryOk(r) && SlotsOk(if rc == EINFLIGHT then r else r.(lmbInFlight := false))
  {
    SameHoldersSameInvariant(s, d.(lmbInFlight := false));
    assert HistoryOk(d);
    hide SlotsOk, HistoryOk, LedgerOk;
    assert ReadyToSend(d, Find(d.slots, 0, 0), c, Lmb);
    SendKeepsHolders(d, Find(d.slots, 0, 0), c, Lmb, sent);
  }

  lemma SendImageKeepsHolders(s: Broker, d: Broker, c: u32, staging: u32, sent: bool)
    requires Inv(s) && !s.lmbInFlight && SameHolders(s, d) && Shape(d) && !NoSuchClient(s, c)
    requires ClientOf(s, c).status != InFlight && Find(d.slots, 0, 0) >= 0
    ensures var t := SendImage(d, Find(d.slots, 0, 0), c, staging, sent).0; SlotsOk(t) && HistoryOk(t)
  {
    hide SlotsOk, HistoryOk, LedgerOk, SendFor;
    var staged := d.(lmbInFlight := true, lmbStaging := staging);
    LoadSendKeepsHolders(s, staged, c, sent);
    var (r, code) := SendFor(staged, Find(d.slots, 0, 0), c, Lmb, sent);
    HistoryIgnoresFlag(r);
    SameHoldersSameInvariant(if code == EINFLIGHT then r else r.(lmbInFlight := false),
        SendImage(d, Find(d.slots, 0, 0), c, staging, sent).0);
  }

  lemma LoadBufferKeepsHolders(s: Broker, c: u32, irx: u32, irxLen: u32, args: u32, argsLen: u32, env: LoadReplies,
      refuses: set<u32>)
    requires Inv(s)
    ensures var t := LoadModuleBuffer(s, c, irx, irxLen, args, argsLen, env, refuses).0; SlotsOk(t) && HistoryOk(t)
  {
    hide PrepareLoad, SlotsOk, HistoryOk, LedgerOk, SendImage, TakeBlock, FreeBlock;
    InvShape(s);
    var t := LoadModuleBuffer(s, c, irx, irxLen, args, argsLen, env, refuses).0;
    var (d, rc) := PrepareLoad(s, c, env, refuses);
    PrepareKeepsHolders(s, c, env, refuses);
    var badArgs := irx == 0 || irxLen == 0 || argsLen > MAX_MODULE_ARGS || (argsLen != 0 && args == 0);
    var slot := Find(d.slots, 0, 0);
    if s.active && !NoSuchClient(s, c) && !badArgs && rc == OK && env.grant != 0 && env.written && slot >= 0 {
      SendImageKeepsHolders(s, d.(heap := TakeBlock(d.heap, env.grant)), c, env.grant, env.sent);
    } else {
      SameHoldersSameInvariant(s, t);
    }
  }

  lemma HistoryIgnoresFlag(s: Broker)
    requires Shape(s)
    ensures HistoryOk(s) <==> HistoryOk(s.(lmbInFlight := false))
  {
  }

  lemma LoadPathKeepsHolders(s: Broker, c: u32, noPath: bool, path: string, args: u32, argsLen: u32,
      env: LoadReplies, refuses: set<u32>)
    requires Inv(s)
    ensures var t := LoadModulePath(s, c, noPath, path, args, argsLen, env, refuses).0; SlotsOk(t) && HistoryOk(t)
  {
    var t := LoadModulePath(s, c, noPath, path, args, argsLen, env, refuses).0;
    var (d, rc) := PrepareLoad(s, c, env, refuses);
    PrepareKeepsHolders(s, c, env, refuses);
    hide PrepareLoad, SlotsOk, HistoryOk, LedgerOk, SendFor, Rom0Path;
    var slot := Find(d.slots, 0, 0);
    if s.active && !NoSuchClient(s, c) && rc == OK && slot >= 0 {
      var staged := d.(lmbInFlight := true, lmbStaging := 0);
      LoadSendKeepsHolders(s, staged, c, env.sent);
      HistoryIgnoresFlag(SendFor(staged, slot, c, Lmb, env.sent).0);
      SameHoldersSameInvariant(s, d);
    } else {
      SameHoldersSameInvariant(s, t);
    }
  }

  // ---------------------------------------------------------------- completions

  /** A reply that names no active client changes nothing; a null client matches only free slots. */
  lemma StrayReplyIsIgnored(s: Broker, r: Reply)
    requires Shape(s) && (r.cd == 0 || r.cd !in s.slots)
    ensures OnReply(s, r) == s
  {
    var slot := Find(s.slots, r.cd, 0);
    if slot >= 0 {
      assert s.slots[slot := 0] == s.slots;
    }
  }

  /** A reply that names an active client completes the submission in its slot, once. */
  lemma ReplyCompletes(s: Broker, r: Reply, i: nat)
    requires Inv(s) && i < PKT_COUNT && s.slots[i] == r.cd != 0
    ensures var t := OnReply(s, r);
            && t.slots == s.slots[i := 0] && t.fired == s.fired + [s.serials[i]]
            && r.cd in t.clients && t.clients[r.cd] == Completed(s.clients[r.cd], r) && t.clients[r.cd].status == Done
            && t.serials == s.serials && t.issued == s.issued
            && t.lmbInFlight == (s.lmbInFlight && s.clients[r.cd].op != Lmb)
            && t.clients == s.clients[r.cd := t.clients[r.cd]]
  {
    var slot := Find(s.slots, r.cd, 0);
    assert slot >= 0 && slot == i;
    assert HolderOk(s, s.slots[i]);
    assert s.clients[r.cd].op == Lmb ==> Loads(s, i);
  }

  lemma ReplyKeepsHolders(s: Broker, r: Reply)
    requires Inv(s)
    ensures SlotsOk(OnReply(s, r)) && HistoryOk(OnReply(s, r))
  {
    if r.cd == 0 || r.cd !in s.slots {
      StrayReplyIsIgnored(s, r);
    } else {
      var i :| 0 <= i < PKT_COUNT && s.slots[i] == r.cd;
      ReplyCompletes(s, r, i);
      hide OnReply, LedgerOk, Completed, SlotsOk, HistoryOk;
      CompletedHolders(s, OnReply(s, r), i);
      CompletedHistory(s, OnReply(s, r), i);
    }
  }

  /** `t` is `s` after the completion of the submission in slot `i`. */
  ghost predicate CompletedAt(s: Broker, t: Broker, i: nat) {
    && Shape(s) && Shape(t) && i < PKT_COUNT && s.slots[i] != 0 && s.slots[i] in s.clients
    && t.slots == s.slots[i := 0] && t.fired == s.fired + [s.serials[i]] && t.serials == s.serials
    && t.issued == s.issued && t.lmbInFlight == (s.lmbInFlight && s.clients[s.slots[i]].op != Lmb)
    && s.slots[i] in t.clients && t.clients == s.clients[s.slots[i] := t.clients[s.slots[i]]]
  }

  lemma CompletedHistory(s: Broker, t: Broker, i: nat)
    requires CompletedAt(s, t, i) && HistoryOk(s)
    ensures HistoryOk(t)
  {
  }

  lemma CompletedHolders(s: Broker, t: Broker, i: nat)
    requires CompletedAt(s, t, i) && SlotsOk(s)
    ensures SlotsOk(t)
  {
    forall j | 0 <= j < PKT_COUNT && t.slots[j] != 0
      ensures j != i && t.slots[j] == s.slots[j] != s.slots[i] && HolderOk(t, t.slots[j])
    {
      assert HolderOk(s, s.slots[j]);
    }
    assert forall j :: Loads(t, j) <==> j != i && Loads(s, j);
    assert Loads(s, i) <==> s.clients[s.slots[i]].op == Lmb;
  }

  lemma ReplyKeepsLedger(s: Broker, r: Reply)
    requires Inv(s)
    ensures LedgerOk(OnReply(s, r))
  {
    if r.cd == 0 || r.cd !in s.slots {
      StrayReplyIsIgnored(s, r);
    } else {
      var i := Find(s.slots, r.cd, 0);
      assert i >= 0 && HolderOk(s, s.slots[i]);
      assert s.clients[r.cd].op == Lmb ==> Loads(s, i);
      var e := s.(slots := s.slots[i := 0]);
      assert LedgerOk(e) by {
        hide HeapOk;
      }
      if s.lmbInFlight {
        FailedSendKeeps(e);
      }
      hide HeapOk;
    }
  }

  // ---------------------------------------------------------------- every step

  lemma InitKeeps(s: Broker, c: u32, hasDone: bool)
    requires Inv(s) && c != 0 && c !in s.slots
    ensures Inv(GuestInit(s, c, hasDone))
  {
    hide HeapOk;
    var t := GuestInit(s, c, hasDone);
    forall i | 0 <= i < PKT_COUNT && t.slots[i] != 0
      ensures HolderOk(t, t.slots[i])
    {
      assert HolderOk(s, s.slots[i]);
    }
    assert forall i :: Loads(t, i) <==> Loads(s, i);
  }

  lemma StepKeepsLedger(s: Broker, step: Step)
    requires Inv(s) && Enabled(s, step)
    ensures LedgerOk(Next(s, step))
  {
    hide LedgerOk, SlotsOk, HistoryOk, Drain, Unaligned;
    match step {
      case DoOpen => ResetKeeps(s, true);
      case DoClose(refuses) => CloseKeeps(s, refuses);
      case DoTransfer(ee, iop, len, ok, refuses) => DrainKeeps(s, refuses);
      case DoAlloc(len, out, grant, refuses) => AllocKeeps(s, len, out, grant, refuses);
      case DoFree(addr, refuses) => FreeKeeps(s, addr, refuses);
      case DoBind(c, sent, refuses) => BindAndCallKeep(s, c, Buffer(0, 0), Buffer(0, 0), sent, refuses);
      case DoCall(c, send, recv, sent, refuses) => BindAndCallKeep(s, c, send, recv, sent, refuses);
      case DoLoadBuffer(c, irx, irxLen, args, argsLen, env, refuses) => LoadBufferKeeps(s, c, irx, irxLen, args,
          argsLen, env, refuses);
      case DoLoadPath(c, noPath, path, args, argsLen, env, refuses) => LoadPathKeeps(s, c, noPath, path, args,
          argsLen, env, refuses);
      case DoReply(reply) => ReplyKeepsLedger(s, reply);
      case DoInit(c, hasDone) => InitKeeps(s, c, hasDone);
    }
  }

  lemma QuietStepsKeepHolders(s: Broker, step: Step)
    requires Inv(s) && (step.DoTransfer? || step.DoAlloc? || step.DoFree?)
    ensures SlotsOk(Next(s, step)) && HistoryOk(Next(s, step)) && SameHolders(s, Next(s, step))
  {
    QuietStepsTouchNoSlot(s, step);
    hide Next, SlotsOk, HistoryOk, LedgerOk, SameHolders;
    SameHoldersSameInvariant(s, Next(s, step));
  }

  lemma QuietStepsTouchNoSlot(s: Broker, step: Step)
    requires Shape(s) && (step.DoTransfer? || step.DoAlloc? || step.DoFree?)
    ensures SameHolders(s, Next(s, step))
  {
    hide Drain, Unaligned, Find, TakeBlock, FreeBlock;
    DrainTouchesNoSlot(s, step.refuses);
  }

  lemma DrainTouchesNoSlot(s: Broker, refuses: set<u32>)
    requires Shape(s)
    ensures SameHolders(s, Drain(s, refuses)) && Drain(s, refuses).addrs == s.addrs
  {
  }

  lemma SessionStepsKeepHolders(s: Broker, step: Step)
    requires Inv(s) && (step.DoOpen? || step.DoClose?)
    ensures SlotsOk(Next(s, step)) && HistoryOk(Next(s, step))
  {
    if step.DoOpen? || s.active {
      assert HistoryOk(Next(s, step));
      EmptySlotsOk(Next(s, step));
    }
  }

  lemma StepKeepsHolders(s: Broker, step: Step)
    requires Inv(s) && Enabled(s, step)
    ensures SlotsOk(Next(s, step)) && HistoryOk(Next(s, step))
  {
    hide LedgerOk, SlotsOk, HistoryOk, Drain, Unaligned;
    match step {
      case DoBind(c, sent, refuses) => BindKeepsHolders(s, c, sent, refuses);
      case DoCall(c, send, recv, sent, refuses) => CallKeepsHolders(s, c, send, recv, sent, refuses);
      case DoLoadBuffer(c, irx, irxLen, args, argsLen, env, refuses) => LoadBufferKeepsHolders(s, c, irx, irxLen,
          args, argsLen, env, refuses);
      case DoLoadPath(c, noPath, path, args, argsLen, env, refuses) => LoadPathKeepsHolders(s, c, noPath, path, args,
          argsLen, env, refuses);
      case DoReply(reply) => ReplyKeepsHolders(s, reply);
      case DoInit(c, hasDone) => InitKeeps(s, c, hasDone);
      case DoOpen => SessionStepsKeepHolders(s, step);
      case DoClose(_) => SessionStepsKeepHolders(s, step);
      case _ => QuietStepsKeepHolders(s, step);
    }
  }

  /** In every run: blocks have one owner each, no free names a block that is not out, at most
      one block waits in the queue, clients in slots are distinct and in flight, the in-flight
      flag tells the truth, and no submission fires twice. */
  lemma {:induction false} RunKeeps(s: Broker, steps: seq<Step>)
    requires Inv(s) && Possible(s, steps)
    ensures Inv(Run(s, steps))
    decreases |steps|
  {
    if steps != [] {
      StepKeepsLedger(s, steps[0]);
      StepKeepsHolders(s, steps[0]);
      RunKeeps(Next(s, steps[0]), steps[1..]);
    }
  }

  /** From power-on: in every run all of that holds, and a block is successfully freed at most
      once for each time it was obtained. */
  lemma FreedOncePerTake(steps: seq<Step>, i: nat, j: nat, addr: u32)
    requires Possible(PowerOn(), steps)
    ensures Inv(Run(PowerOn(), steps))
    ensures var log := Run(PowerOn(), steps).heap.log;
            i < j < |log| && log[i] == Freed(addr) && log[j] in {Freed(addr), Refused(addr)}
            ==> exists k :: i < k < j && log[k] == Took(addr)
  {
    PowerOnOk();
    RunKeeps(PowerOn(), steps);
    var t := Run(PowerOn(), steps);
    assert Orderly(t.heap.log);
    hide Run, Orderly, Inv;
    if i < j < |t.heap.log| && t.heap.log[i] == Freed(addr) && t.heap.log[j] in {Freed(addr), Refused(addr)} {
      FreedOnce(t.heap.log, i, j, addr);
    }
  }

  // ---------------------------------------------------------------- what a client can rely on

  /** An accepted submission takes a fresh number and one free slot; a rejected one leaves no
      slot taken and no number used. */
  ghost predicate Submitted(s: Broker, t: Broker, c: u32, accepted: bool) {
    && t.fired == s.fired
    && (accepted ==> t.issued == s.issued + 1)
    && (accepted ==> exists i :: 0 <= i < |s.slots| && |s.serials| == |s.slots| && s.slots[i] == 0
                                 && t.slots == s.slots[i := c] && t.serials == s.serials[i := s.issued])
    && (!accepted ==> t.issued == s.issued && t.slots == s.slots && t.serials == s.serials)
  }

  lemma AcceptedOrWithoutTrace(s: Broker, c: u32, send: Buffer, recv: Buffer, sent: bool, refuses: set<u32>)
    requires Shape(s)
    ensures var (t, rc) := RpcBind(s, c, sent, refuses); Submitted(s, t, c, rc == EINFLIGHT)
    ensures var (t, rc) := RpcCall(s, c, send, recv, sent, refuses); Submitted(s, t, c, rc == EINFLIGHT)
  {
    hide CheckBuffers, FreeAll, Zeroed;
  }

  lemma LoadBufferAcceptedOrWithoutTrace(s: Broker, c: u32, irx: u32, irxLen: u32, args: u32, argsLen: u32,
      env: LoadReplies, refuses: set<u32>)
    requires Shape(s)
    ensures var (t, rc) := LoadModuleBuffer(s, c, irx, irxLen, args, argsLen, env, refuses);
            Submitted(s, t, c, rc == EINFLIGHT)
  {
    hide FreeAll, Zeroed;
  }

  lemma LoadPathAcceptedOrWithoutTrace(s: Broker, c: u32, noPath: bool, path: string, args: u32, argsLen: u32,
      env: LoadReplies, refuses: set<u32>)
    requires Shape(s)
    ensures var (t, rc) := LoadModulePath(s, c, noPath, path, args, argsLen, env, refuses);
            Submitted(s, t, c, rc == EINFLIGHT)
  {
    hide FreeAll, Zeroed, Rom0Path;
  }

  ghost predicate Pending(s: Broker, k: nat)
    requires Shape(s)
  {
    exists i :: 0 <= i < PKT_COUNT && s.slots[i] != 0 && s.serials[i] == k
  }

  /** A number handed out whose submission holds no slot any more. */
  ghost predicate Out(s: Broker, k: nat)
    requires Shape(s)
  {
    k < s.issued && !Pending(s, k)
  }

  /** Neither completed nor in a slot: withdrawn by close or a fresh open. */
  ghost predicate Abandoned(s: Broker, k: nat)
    requires Shape(s)
  {
    Out(s, k) && k !in s.fired
  }

  lemma SubmittingKeepsOut(s: Broker, t: Broker, c: u32, accepted: bool, k: nat)
    requires Shape(s) && Shape(t) && Submitted(s, t, c, accepted) && Out(s, k)
    ensures Out(t, k) && t.fired == s.fired
  {
  }

  lemma ReplyKeepsOut(s: Broker, r: Reply, k: nat)
    requires Inv(s) && Out(s, k)
    ensures Out(OnReply(s, r), k) && (k in OnReply(s, r).fired <==> k in s.fired)
  {
    if r.cd == 0 || r.cd !in s.slots {
      StrayReplyIsIgnored(s, r);
    } else {
      var i :| 0 <= i < PKT_COUNT && s.slots[i] == r.cd;
      ReplyCompletes(s, r, i);
      hide OnReply, LedgerOk, SlotsOk, HistoryOk, Completed;
      assert s.serials[i] != k;
    }
  }

  /** Once out of its slot a submission never gets one again, and never fires any more. */
  lemma StepKeepsOut(s: Broker, step: Step, k: nat)
    requires Inv(s) && Enabled(s, step) && Out(s, k)
    ensures Out(Next(s, step), k) && (k in Next(s, step).fired <==> k in s.fired)
  {
    var t := Next(s, step);
    hide LedgerOk, SlotsOk, HistoryOk, Drain, Submitted, Out, CheckBuffers, Rom0Path;
    match step {
      case DoBind(c, sent, refuses) =>
        AcceptedOrWithoutTrace(s, c, Buffer(0, 0), Buffer(0, 0), sent, refuses);
        SubmittingKeepsOut(s, t, c, RpcBind(s, c, sent, refuses).1 == EINFLIGHT, k);
      case DoCall(c, send, recv, sent, refuses) =>
        AcceptedOrWithoutTrace(s, c, send, recv, sent, refuses);
        SubmittingKeepsOut(s, t, c, RpcCall(s, c, send, recv, sent, refuses).1 == EINFLIGHT, k);
      case DoLoadBuffer(c, irx, irxLen, args, argsLen, env, refuses) =>
        LoadBufferAcceptedOrWithoutTrace(s, c, irx, irxLen, args, argsLen, env, refuses);
        SubmittingKeepsOut(s, t, c, LoadModuleBuffer(s, c, irx, irxLen, args, argsLen, env, refuses).1 == EINFLIGHT, k);
      case DoLoadPath(c, noPath, path, args, argsLen, env, refuses) =>
        LoadPathAcceptedOrWithoutTrace(s, c, noPath, path, args, argsLen, env, refuses);
        SubmittingKeepsOut(s, t, c, LoadModulePath(s, c, noPath, path, args, argsLen, env, refuses).1 == EINFLIGHT, k);
      case DoReply(reply) => ReplyKeepsOut(s, reply, k);
      case _ => OtherStepsKeepOut(s, step, k);
    }
  }

  lemma OtherStepsKeepOut(s: Broker, step: Step, k: nat)
    requires Inv(s) && Out(s, k) && Enabled(s, step)
    requires step.DoOpen? || step.DoClose? || step.DoInit? || step.DoTransfer? || step.DoAlloc? || step.DoFree?
    ensures Out(Next(s, step), k) && Next(s, step).fired == s.fired
  {
    if step.DoTransfer? || step.DoAlloc? || step.DoFree? {
      QuietStepsTouchNoSlot(s, step);
      hide Next, LedgerOk, SlotsOk, HistoryOk;
    }
  }

  lemma {:induction false} RunKeepsOut(s: Broker, steps: seq<Step>, k: nat)
    requires Inv(s) && Possible(s, steps) && Out(s, k)
    ensures Out(Run(s, steps), k) && (k in Run(s, steps).fired <==> k in s.fired)
    decreases |steps|
  {
    hide Inv, Out, Next;
    InvShape(s);
    if steps != [] {
      StepKeeps(s, steps[0]);
      StepKeepsOut(s, steps[0], k);
      RunKeepsOut(Next(s, steps[0]), steps[1..], k);
    }
  }

  lemma InvShape(s: Broker)
    requires Inv(s)
    ensures Shape(s)
  {
  }

  lemma StepKeeps(s: Broker, step: Step)
    requires Inv(s) && Enabled(s, step)
    ensures Inv(Next(s, step))
  {
    StepKeepsLedger(s, step);
    StepKeepsHolders(s, step);
  }

  /** done() never fires for a submission that close or a fresh open withdrew. */
  lemma AbandonedNeverFires(s: Broker, steps: seq<Step>, k: nat)
    requires Inv(s) && Possible(s, steps) && Abandoned(s, k)
    ensures k !in Run(s, steps).fired
  {
    hide Inv, Out, Run;
    RunKeepsOut(s, steps, k);
  }

  lemma EmptySlotsAbandon(s: Broker, t: Broker, k: nat)
    requires Shape(s) && Shape(t) && k < s.issued == t.issued && k !in s.fired && t.fired == s.fired
    requires forall i | 0 <= i < PKT_COUNT :: t.slots[i] == 0
    ensures Abandoned(t, k)
  {
  }

  /** Close and open withdraw everything that has not completed. */
  lemma SessionEndAbandons(s: Broker, refuses: set<u32>, k: nat)
    requires Inv(s) && k < s.issued && k !in s.fired
    ensures Abandoned(Open(s), k) && Abandoned(Close(s, refuses), k)
  {
    assert s.active || forall i | 0 <= i < PKT_COUNT :: s.slots[i] == 0;
    EmptySlotsAbandon(s, Open(s), k);
    EmptySlotsAbandon(s, Close(s, refuses), k);
  }

  /** In flight by its private words, but in no slot: nothing can complete it any more. */
  ghost predicate Stuck(s: Broker, c: u32) {
    c != 0 && c in s.clients && s.clients[c].hasDone && s.clients[c].status == InFlight && c !in s.slots
  }

  lemma SubmittingKeepsStuck(s: Broker, slot: nat, d: u32, op: Op, sent: bool, c: u32)
    requires Shape(s) && slot < PKT_COUNT && d != 0 && Stuck(s, c) && d != c
    ensures Stuck(SendFor(s, slot, d, op, sent).0, c)
  {
  }

  /** What being stuck depends on. */
  ghost predicate SameClients(s: Broker, t: Broker) {
    s.slots == t.slots && s.clients == t.clients
  }

  lemma PrepareTouchesNoClient(s: Broker, c: u32, env: LoadReplies, refuses: set<u32>)
    requires Shape(s)
    ensures var (d, rc) := PrepareLoad(s, c, env, refuses);
            Shape(d) && SameClients(s, d) && (rc == OK ==> ClientOf(s, c).status != InFlight)
  {
    hide FreeAll, Zeroed;
  }

  lemma SendImageKeepsStuck(s: Broker, slot: nat, d: u32, staging: u32, sent: bool, c: u32)
    requires Shape(s) && slot < PKT_COUNT && d != 0 && Stuck(s, c) && d != c
    ensures Stuck(SendImage(s, slot, d, staging, sent).0, c)
  {
    hide SendFor;
    SubmittingKeepsStuck(s.(lmbInFlight := true, lmbStaging := staging), slot, d, Lmb, sent, c);
  }

  lemma LoadBufferKeepsStuck(s: Broker, step: Step, c: u32)
    requires Shape(s) && Stuck(s, c) && step.DoLoadBuffer?
    ensures Stuck(Next(s, step), c)
  {
    hide PrepareLoad, SendImage, TakeBlock, FreeBlock;
    var (d, rc) := PrepareLoad(s, step.c, step.env, step.refuses);
    PrepareTouchesNoClient(s, step.c, step.env, step.refuses);
    var slot := Find(d.slots, 0, 0);
    if rc == OK && slot >= 0 && step.c != 0 {
      var taken := d.(heap := TakeBlock(d.heap, step.env.grant));
      SendImageKeepsStuck(taken, slot, step.c, step.env.grant, step.env.sent, c);
    }
  }

  lemma LoadPathKeepsStuck(s: Broker, step: Step, c: u32)
    requires Shape(s) && Stuck(s, c) && step.DoLoadPath?
    ensures Stuck(Next(s, step), c)
  {
    hide PrepareLoad, SendFor, Rom0Path;
    var (d, rc) := PrepareLoad(s, step.c, step.env, step.refuses);
    PrepareTouchesNoClient(s, step.c, step.env, step.refuses);
    var slot := Find(d.slots, 0, 0);
    if rc == OK && slot >= 0 && step.c != 0 {
      SubmittingKeepsStuck(d.(lmbInFlight := true, lmbStaging := 0), slot, step.c, Lmb, step.env.sent, c);
    }
  }

  lemma BindAndCallKeepStuck(s: Broker, step: Step, c: u32)
    requires Shape(s) && Stuck(s, c) && (step.DoBind? || step.DoCall?)
    ensures Stuck(Next(s, step), c)
  {
    hide Drain, SendFor, CheckBuffers;
    var d := Drain(s, step.refuses);
    DrainLeavesSlots(s, step.refuses);
    var slot := Find(d.slots, 0, 0);
    if slot >= 0 && step.c != 0 && step.c != c {
      SubmittingKeepsStuck(d, slot, step.c, Bind, step.sent, c);
      SubmittingKeepsStuck(d, slot, step.c, Call, step.sent, c);
    }
  }

  lemma ReplyKeepsStuck(s: Broker, r: Reply, c: u32)
    requires Shape(s) && Stuck(s, c)
    ensures Stuck(OnReply(s, r), c)
  {
    if r.cd == c {
      StrayReplyIsIgnored(s, r);
    }
  }

  lemma StepKeepsStuck(s: Broker, step: Step, c: u32)
    requires Shape(s) && Enabled(s, step) && Stuck(s, c) && !(step.DoInit? && step.c == c)
    ensures Stuck(Next(s, step), c)
  {
    hide Stuck;
    match step {
      case DoBind(_, _, _) => BindAndCallKeepStuck(s, step, c);
      case DoCall(_, _, _, _, _) => BindAndCallKeepStuck(s, step, c);
      case DoLoadBuffer(_, _, _, _, _, _, _) => LoadBufferKeepsStuck(s, step, c);
      case DoLoadPath(_, _, _, _, _, _, _) => LoadPathKeepsStuck(s, step, c);
      case DoReply(reply) => ReplyKeepsStuck(s, reply, c);
      case _ => OtherStepsKeepStuck(s, step, c);
    }
  }

  lemma OtherStepsKeepStuck(s: Broker, step: Step, c: u32)
    requires Shape(s) && Stuck(s, c) && !(step.DoInit? && step.c == c)
    requires step.DoOpen? || step.DoClose? || step.DoInit? || step.DoTransfer? || step.DoAlloc? || step.DoFree?
    ensures Stuck(Next(s, step), c)
  {
    hide FreeAll, Zeroed, Unaligned;
  }

  lemma {:induction false} RunKeepsStuck(s: Broker, steps: seq<Step>, c: u32)
    requires Shape(s) && Possible(s, steps) && Stuck(s, c)
    requires forall n | 0 <= n < |steps| :: !(steps[n].DoInit? && steps[n].c == c)
    ensures Stuck(Run(s, steps), c)
    decreases |steps|
  {
    hide Stuck, Next, Enabled;
    if steps != [] {
      StepKeepsStuck(s, steps[0], c);
      RunKeepsStuck(Next(s, steps[0]), steps[1..], c);
    }
  }

  /** A client withdrawn while in flight stays in flight: over every later run in which the guest
      does not wipe its struct, whatever replies arrive, any session answers EBUSY and does nothing. */
  lemma WithdrawnClientStaysBusy(s: Broker, i: nat, last: Step, steps: seq<Step>, send: Buffer, recv: Buffer,
      sent: bool, refuses: set<u32>)
    requires Inv(s) && s.active && i < PKT_COUNT && s.slots[i] != 0 && (last.DoOpen? || last.DoClose?)
    requires Possible(Next(s, last), steps)
    requires forall n | 0 <= n < |steps| :: !(steps[n].DoInit? && steps[n].c == s.slots[i])
    ensures var t := Run(Next(s, last), steps);
            t.active ==> RpcBind(t, s.slots[i], sent, refuses) == (t, EBUSY)
                         && RpcCall(t, s.slots[i], send, recv, sent, refuses) == (t, EBUSY)
  {
    assert HolderOk(s, s.slots[i]);
    WithdrawnIsStuck(s, i, last);
    hide Inv, Next;
    RunKeepsStuck(Next(s, last), steps, s.slots[i]);
  }

  lemma WithdrawnIsStuck(s: Broker, i: nat, last: Step)
    requires Shape(s) && s.active && i < PKT_COUNT && s.slots[i] != 0 && HolderOk(s, s.slots[i])
    requires last.DoOpen? || last.DoClose?
    ensures Stuck(Next(s, last), s.slots[i])
  {
    hide FreeAll, Zeroed;
  }

  lemma BindTakesTheFirstSlot(s: Broker, c: u32)
    requires Shape(s) && s.active && s.slots[0] == 0 && !NoSuchClient(s, c) && ClientOf(s, c).status != InFlight
    ensures var (t, rc) := RpcBind(s, c, true, {});
            && rc == EINFLIGHT && t.slots[0] == c && t.serials[0] == s.issued && t.fired == s.fired
            && c in t.clients && t.clients[c].hasDone && t.clients[c].op == Bind
  {
    hide FreeAll, Zeroed;
    assert Find(Drain(s, {}).slots, 0, 0) == 0;
  }

  lemma ReplyToTheFirstSlot(s: Broker, r: Reply)
    requires Shape(s) && s.slots[0] == r.cd != 0 && r.cd in s.clients && s.clients[r.cd].hasDone
             && s.clients[r.cd].op == Bind
    ensures OnReply(s, r).fired == s.fired + [s.serials[0]]
  {
    assert Find(s.slots, r.cd, 0) == 0;
  }

  /** Replies are matched by client alone: once the guest reuses the struct, a late reply to the
      withdrawn request completes the new one. */
  lemma LateReplyCompletesTheNextRequest(s: Broker, i: nat, refuses: set<u32>, r: Reply)
    requires Inv(s) && s.active && i < PKT_COUNT && s.slots[i] == r.cd != 0
    ensures var reused := GuestInit(Open(Close(s, refuses)), r.cd, true);
            var (again, rc) := RpcBind(reused, r.cd, true, {});
            rc == EINFLIGHT && OnReply(again, r).fired == s.fired + [s.issued]
  {
    hide RpcBind;
    var reused := GuestInit(Open(Close(s, refuses)), r.cd, true);
    BindTakesTheFirstSlot(reused, r.cd);
    ReplyToTheFirstSlot(RpcBind(reused, r.cd, true, {}).0, r);
  }

  // ---------------------------------------------------------------- which request a reply completes

  /** Submission k of client c holds slot i. */
  predicate Holds(s: Broker, i: nat, k: nat, c: u32)
    requires Shape(s)
  {
    i < PKT_COUNT && s.slots[i] == c != 0 && s.serials[i] == k
  }

  /** The steps that take a client out of its slot: close, a fresh open, a reply that names it. */
  predicate Ends(step: Step, c: u32) {
    step.DoOpen? || step.DoClose? || (step.DoReply? && step.reply.cd == c)
  }

  lemma SubmittingLeavesHolder(s: Broker, t: Broker, d: u32, accepted: bool, i: nat, k: nat, c: u32)
    requires Shape(s) && Shape(t) && Submitted(s, t, d, accepted) && Holds(s, i, k, c)
    ensures Holds(t, i, k, c)
  {
  }

  lemma OtherReplyLeavesHolder(s: Broker, r: Reply, i: nat, k: nat, c: u32)
    requires Shape(s) && Holds(s, i, k, c) && r.cd != c
    ensures Holds(OnReply(s, r), i, k, c)
  {
  }

  lemma OtherStepsLeaveHolder(s: Broker, step: Step, i: nat, k: nat, c: u32)
    requires Inv(s) && Enabled(s, step) && Holds(s, i, k, c) && !Ends(step, c)
    ensures Holds(Next(s, step), i, k, c)
  {
    var t := Next(s, step);
    hide LedgerOk, SlotsOk, HistoryOk, Drain, Submitted, Holds, CheckBuffers, Rom0Path;
    match step {
      case DoBind(d, sent, refuses) =>
        AcceptedOrWithoutTrace(s, d, Buffer(0, 0), Buffer(0, 0), sent, refuses);
        SubmittingLeavesHolder(s, t, d, RpcBind(s, d, sent, refuses).1 == EINFLIGHT, i, k, c);
      case DoCall(d, send, recv, sent, refuses) =>
        AcceptedOrWithoutTrace(s, d, send, recv, sent, refuses);
        SubmittingLeavesHolder(s, t, d, RpcCall(s, d, send, recv, sent, refuses).1 == EINFLIGHT, i, k, c);
      case DoLoadBuffer(d, irx, irxLen, args, argsLen, env, refuses) =>
        LoadBufferAcceptedOrWithoutTrace(s, d, irx, irxLen, args, argsLen, env, refuses);
        SubmittingLeavesHolder(s, t, d,
            LoadModuleBuffer(s, d, irx, irxLen, args, argsLen, env, refuses).1 == EINFLIGHT, i, k, c);
      case DoLoadPath(d, noPath, path, args, argsLen, env, refuses) =>
        LoadPathAcceptedOrWithoutTrace(s, d, noPath, path, args, argsLen, env, refuses);
        SubmittingLeavesHolder(s, t, d,
            LoadModulePath(s, d, noPath, path, args, argsLen, env, refuses).1 == EINFLIGHT, i, k, c);
      case DoReply(reply) => OtherReplyLeavesHolder(s, reply, i, k, c);
      case DoInit(_, _) => InitTouchesNoSlot(s, step, i, k, c);
      case _ =>
        QuietStepsTouchNoSlot(s, step);
        SameHoldersHold(s, t, i, k, c);
    }
  }

  lemma SameHoldersHold(s: Broker, t: Broker, i: nat, k: nat, c: u32)
    requires Shape(s) && Shape(t) && SameHolders(s, t)
    ensures Holds(s, i, k, c) <==> Holds(t, i, k, c)
  {
  }

  lemma InitTouchesNoSlot(s: Broker, step: Step, i: nat, k: nat, c: u32)
    requires Shape(s) && step.DoInit? && Holds(s, i, k, c)
    ensures Holds(Next(s, step), i, k, c)
  {
  }

  lemma EndingStepFreesTheSlot(s: Broker, step: Step, i: nat, k: nat, c: u32)
    requires Inv(s) && Enabled(s, step) && Holds(s, i, k, c) && Ends(step, c)
    ensures Out(Next(s, step), k)
  {
    var t := Next(s, step);
    if step.DoReply? {
      ReplyCompletes(s, step.reply, i);
      hide OnReply, LedgerOk, SlotsOk, Completed;
      assert forall j | 0 <= j < PKT_COUNT && j != i && s.slots[j] != 0 :: s.serials[j] != k;
    } else {
      assert s.active;
      hide HeapOk, FreeAll;
      assert forall j | 0 <= j < PKT_COUNT :: t.slots[j] == 0;
    }
  }

  /** A reply fires submission k exactly when k holds the slot of the client it names. */
  lemma ReplyFiresTheHolder(s: Broker, r: Reply, k: nat)
    requires Inv(s)
    ensures OnReply(s, r).fired == s.fired + [k] <==> exists i :: Holds(s, i, k, r.cd)
  {
    if r.cd == 0 || r.cd !in s.slots {
      StrayReplyIsIgnored(s, r);
      assert |s.fired + [k]| == |s.fired| + 1;
    } else {
      var i :| 0 <= i < PKT_COUNT && s.slots[i] == r.cd;
      ReplyCompletes(s, r, i);
      hide OnReply, LedgerOk, HistoryOk, Completed;
      assert (s.fired + [s.serials[i]])[|s.fired|] == s.serials[i] && (s.fired + [k])[|s.fired|] == k;
      assert Holds(s, i, s.serials[i], r.cd);
      assert forall j | 0 <= j < PKT_COUNT && s.slots[j] == r.cd :: j == i;
    }
  }

  /** A submission keeps its slot over a run exactly when no step of the run ends it. */
  lemma {:induction false} KeepsSlotExactly(s: Broker, steps: seq<Step>, i: nat, k: nat, c: u32)
    requires Inv(s) && Possible(s, steps) && Holds(s, i, k, c) && k < s.issued
    ensures if forall n | 0 <= n < |steps| ::
            !Ends(steps[n], c) then Holds(Run(s, steps), i, k, c) else Out(Run(s, steps), k)
    decreases |steps|
  {
    hide Inv, Out, Holds, Next, Ends;
    InvShape(s);
    if steps != [] {
      StepKeeps(s, steps[0]);
      var n := Next(s, steps[0]);
      if Ends(steps[0], c) {
        EndingStepFreesTheSlot(s, steps[0], i, k, c);
        RunKeepsOut(n, steps[1..], k);
      } else {
        OtherStepsLeaveHolder(s, steps[0], i, k, c);
        StepIssues(s, steps[0]);
        KeepsSlotExactly(n, steps[1..], i, k, c);
        assert forall m | 0 < m < |steps| :: steps[m] == steps[1..][m - 1];
      }
    }
  }

  lemma StepIssues(s: Broker, step: Step)
    requires Shape(s)
    ensures Next(s, step).issued >= s.issued
  {
    hide FreeAll, Zeroed, Find, CheckBuffers, Rom0Path, LoadFinished, Completed;
    if step.DoReply? {
      ReplyIssuesNothing(s, step.reply);
    }
  }

  lemma ReplyIssuesNothing(s: Broker, r: Reply)
    requires Shape(s)
    ensures OnReply(s, r).issued == s.issued
  {
  }

  /** Replies carry no request number, only the client. The reply to submission k fires k, after
      any run, if and only if the run has neither closed nor opened a session nor seen an earlier
      reply that names the same client. */
  lemma ReplyFiresItsRequestExactly(s: Broker, steps: seq<Step>, i: nat, k: nat, r: Reply)
    requires Inv(s) && Possible(s, steps) && Holds(s, i, k, r.cd)
    ensures var t := Run(s, steps);
            OnReply(t, r).fired == t.fired + [k] <==> forall n | 0 <= n < |steps| :: !Ends(steps[n], r.cd)
  {
    assert k < s.issued;
    RunKeeps(s, steps);
    hide Inv, Ends, OnReply, Run;
    var t := Run(s, steps);
    KeepsSlotExactly(s, steps, i, k, r.cd);
    ReplyFiresTheHolder(t, r, k);
    OutHoldsNothing(t, k, r.cd);
  }

  lemma OutHoldsNothing(s: Broker, k: nat, c: u32)
    requires Shape(s)
    ensures Out(s, k) ==> forall i: nat :: !Holds(s, i, k, c)
  {
  }

  // ---------------------------------------------------------------- blocks at the end of a session

  /** The event of trying to free a block. */
  function Attempt(a: u32, refuses: set<u32>): HeapEvent {
    if a in refuses then Refused(a) else Freed(a)
  }

  lemma LaterInTheLog(first: seq<HeapEvent>, mid: seq<HeapEvent>, end: seq<HeapEvent>, e: HeapEvent)
    requires first <= mid <= end
    ensures first <= end
    ensures e in mid[|first|..] || e in end[|mid|..] ==> e in end[|first|..]
  {
    assert end[|first|..] == mid[|first|..] + end[|mid|..];
  }

  /** A block of the table or the queue is attempted, and is gone unless refused. */
  lemma RecordedIsAttempted(h: Heap, addrs: seq<u32>, refuses: set<u32>, a: u32)
    requires HeapOk(h) && AllLive(addrs, h.live) && DistinctBlocks(addrs) && a != 0 && a in addrs
    ensures var t := FreeAll(h, addrs, refuses);
            h.log <= t.log && Attempt(a, refuses) in t.log[|h.log|..] && (a in t.live <==> a in refuses)
  {
    FreeAllKeeps(h, addrs, refuses);
    var i :| 0 <= i < |addrs| && addrs[i] == a;
    EachIsAttempted(h, addrs, refuses, i);
  }

  lemma UnrecordedIsLeft(h: Heap, addrs: seq<u32>, refuses: set<u32>, a: u32)
    requires HeapOk(h) && AllLive(addrs, h.live) && DistinctBlocks(addrs) && a !in addrs
    ensures var t := FreeAll(h, addrs, refuses); h.log <= t.log && (a in t.live <==> a in h.live)
  {
    FreeAllKeeps(h, addrs, refuses);
  }

  /** Close tries to free the guest's blocks and the queued one, each of them, and whatever the
      IOP does not refuse is gone. */
  lemma CloseFreesEveryRecordedBlock(s: Broker, refuses: set<u32>, a: u32)
    requires Inv(s) && s.active && a != 0 && (a in s.addrs || (s.pendingCount == 1 && a == s.pending[0]))
    ensures var t := Close(s, refuses);
            && s.heap.log <= t.heap.log
            && Attempt(a, refuses) in t.heap.log[|s.heap.log|..]
            && (a in t.heap.live <==> a in refuses)
  {
    hide SlotsOk, HistoryOk, FreeAll, HeapOk, Zeroed, Blank, Attempt;
    var d := Drain(s, refuses);
    DrainKeeps(s, refuses);
    QueueIsAllLive(s);
    if a in s.addrs {
      UnrecordedIsLeft(s.heap, s.pending[..Drained(s)], refuses, a);
      RecordedIsAttempted(d.heap, d.addrs, refuses, a);
    } else {
      RecordedIsAttempted(s.heap, s.pending[..Drained(s)], refuses, a);
      UnrecordedIsLeft(d.heap, d.addrs, refuses, a);
    }
    LaterInTheLog(s.heap.log, d.heap.log, FreeAll(d.heap, d.addrs, refuses).log, Attempt(a, refuses));
  }

  lemma QueueIsAllLive(s: Broker)
    requires LedgerOk(s)
    ensures var q := s.pending[..Drained(s)];
            && AllLive(q, s.heap.live) && DistinctBlocks(q)
            && forall a: u32 :: a in q <==> s.pendingCount == 1 && a == s.pending[0]
  {
    hide HeapOk;
  }

  /** A fresh open without a close frees nothing: the old table's blocks stay out with no owner. */
  lemma OpenLeaksTheTable(s: Broker, a: u32)
    requires Inv(s) && a != 0 && a in s.addrs
    ensures var t := Open(s); t.heap == s.heap && a in t.heap.live && a !in t.addrs && a !in t.pending && !t.lmbInFlight
  {
  }

  lemma ClosedFields(s: Broker, refuses: set<u32>)
    requires Shape(s) && s.active
    ensures var t, d := Close(s, refuses), Drain(s, refuses);
            && t.heap == FreeAll(d.heap, d.addrs, refuses) && d.addrs == s.addrs
            && t.pending == Zeroed(s.pending, Drained(s)) && t.addrs == Blank(MAX_IOP_ALLOCS) && !t.lmbInFlight
  {
    hide FreeAll, Zeroed, Blank;
  }

  lemma StagedIsApart(s: Broker, refuses: set<u32>)
    requires LedgerOk(s) && s.lmbInFlight && s.lmbStaging != 0
    ensures s.lmbStaging in Drain(s, refuses).heap.live && s.lmbStaging !in s.addrs && s.pendingCount == 0
    ensures forall k | 0 <= k < PENDING_FREE_MAX :: s.pending[k] == 0
  {
    hide HeapOk, FreeAll;
    DrainKeeps(s, refuses);
  }

  lemma UntabledIsLeft(d: Broker, refuses: set<u32>, a: u32)
    requires LedgerOk(d) && a !in d.addrs
    ensures a in FreeAll(d.heap, d.addrs, refuses).live <==> a in d.heap.live
  {
    hide HeapOk, FreeAll;
    UnrecordedIsLeft(d.heap, d.addrs, refuses, a);
  }

  /** Close loses the staging block of a load that is still in flight. */
  lemma CloseLeaksStaging(s: Broker, refuses: set<u32>)
    requires Inv(s) && s.active && s.lmbInFlight && s.lmbStaging != 0
    ensures var t := Close(s, refuses);
            && s.lmbStaging in t.heap.live && s.lmbStaging !in t.addrs && s.lmbStaging !in t.pending && !t.lmbInFlight
  {
    hide LedgerOk, SlotsOk, HistoryOk, FreeAll, Close, Drain;
    LedgerShape(s);
    ClosedFields(s, refuses);
    DrainKeeps(s, refuses);
    StagedIsApart(s, refuses);
    UntabledIsLeft(Drain(s, refuses), refuses, s.lmbStaging);
  }
}
