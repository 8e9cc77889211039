/** Runs of the SIF broker, and the ledger of the IOP heap blocks it obtains. */
module BrokerLedger {
  import opened Bytes
  import opened BrokerModel

  // ---------------------------------------------------------------- steps

  datatype Step =
    | DoOpen
    | DoClose(refuses: set<u32>)
    | DoTransfer(ee: u32, iop: u32, len: u32, ok: bool, refuses: set<u32>)
    | DoAlloc(len: u32, out: u32, grant: u32, refuses: set<u32>)
    | DoFree(addr: u32, refuses: set<u32>)
    | DoBind(c: u32, sent: bool, refuses: set<u32>)
    | DoCall(c: u32, send: Buffer, recv: Buffer, sent: bool, refuses: set<u32>)
    | DoLoadBuffer(c: u32, irx: u32, irxLen: u32, args: u32, argsLen: u32, env: LoadReplies, refuses: set<u32>)
    | DoLoadPath(c: u32, noPath: bool, path: string, args: u32, argsLen: u32, env: LoadReplies, refuses: set<u32>)
    | DoReply(reply: Reply)
    | DoInit(c: u32, hasDone: bool)

  function Next(s: Broker, step: Step): (t: Broker)
    requires Shape(s)
    ensures Shape(t)
  {
    match step
    case DoOpen => Open(s)
    case DoClose(refuses) => Close(s, refuses)
    case DoTransfer(ee, iop, len, ok, refuses) => Transfer(s, ee, iop, len, ok, refuses).0
    case DoAlloc(len, out, grant, refuses) => IopAlloc(s, len, out, grant, refuses).0
    case DoFree(addr, refuses) => IopFree(s, addr, refuses).0
    case DoBind(c, sent, refuses) => RpcBind(s, c, sent, refuses).0
    case DoCall(c, send, recv, sent, refuses) => RpcCall(s, c, send, recv, sent, refuses).0
    case DoLoadBuffer(c, irx, irxLen, args, argsLen, env, refuses) => LoadModuleBuffer(s, c, irx, irxLen, args,
        argsLen, env, refuses).0
    case DoLoadPath(c, noPath, path, args, argsLen, env, refuses) => LoadModulePath(s, c, noPath, path, args,
        argsLen, env, refuses).0
    case DoReply(reply) => OnReply(s, reply)
    case DoInit(c, hasDone) => if c == 0 then s else GuestInit(s, c, hasDone)
  }

  /** The IOP grants only blocks it has not already handed out, and a guest does not wipe a
      client struct the broker is holding. */
  predicate Enabled(s: Broker, step: Step)
    requires Shape(s)
  {
    match step
    case DoAlloc(_, _, grant, refuses) => grant !in Drain(s, refuses).heap.live
    case DoLoadBuffer(_, _, _, _, _, env, refuses) => env.grant !in Drain(s, refuses).heap.live
    case DoInit(c, _) => c != 0 && c !in s.slots
    case _ => true
  }

  function PowerOn(): (s: Broker)
    ensures Shape(s)
  {
    Broker(false, Blank(MAX_IOP_ALLOCS), Blank(PKT_COUNT), map[], Blank(PENDING_FREE_MAX), 0, false, false, 0,
           Heap({}, []), 0, seq(PKT_COUNT, _ => 0), [])
  }

  function Run(s: Broker, steps: seq<Step>): (t: Broker)
    requires Shape(s)
    ensures Shape(t)
    decreases |steps|
  {
    if steps == [] then s else Run(Next(s, steps[0]), steps[1..])
  }

  predicate Possible(s: Broker, steps: seq<Step>)
    requires Shape(s)
    decreases |steps|
  {
    steps != [] ==> Enabled(s, steps[0]) && Possible(Next(s, steps[0]), steps[1..])
  }

  // ---------------------------------------------------------------- the heap's history

  function Init(log: seq<HeapEvent>): seq<HeapEvent>
    requires log != []
  {
    log[..|log| - 1]
  }

  /** The blocks that are out after a history of events. */
  function LiveAfter(log: seq<HeapEvent>): set<u32>
    decreases |log|
  {
    if log == [] then {}
    else match log[|log| - 1]
      case Took(a) => LiveAfter(Init(log)) + {a}
      case Freed(a) => LiveAfter(Init(log)) - {a}
      case Refused(_) => LiveAfter(Init(log))
  }

  /** The history is in order: every free names a block that is out at that moment. */
  predicate Orderly(log: seq<HeapEvent>)
    decreases |log|
  {
    log == [] ||
    (Orderly(Init(log)) &&
     match log[|log| - 1]
     case Took(a) => a !in LiveAfter(Init(log))
     case Freed(a) => a in LiveAfter(Init(log))
     case Refused(a) => a in LiveAfter(Init(log)))
  }

  predicate HeapOk(h: Heap) {
    h.live == LiveAfter(h.log) && Orderly(h.log)
  }

  lemma EventKeepsHeap(h: Heap, addr: u32, refuses: set<u32>)
    requires HeapOk(h)
    ensures addr in h.live ==> HeapOk(FreeBlock(h, addr, refuses))
    ensures addr !in h.live ==> HeapOk(TakeBlock(h, addr))
  {
    assert Init(h.log + [Freed(addr)]) == h.log && Init(h.log + [Refused(addr)]) == h.log
           && Init(h.log + [Took(addr)]) == h.log;
  }

  lemma {:induction false} OrderlyPrefix(log: seq<HeapEvent>, n: nat)
    requires Orderly(log) && n <= |log|
    ensures Orderly(log[..n])
    decreases |log|
  {
    if n == |log| {
      assert log[..n] == log;
    } else {
      OrderlyPrefix(Init(log), n);
      assert Init(log)[..n] == log[..n];
    }
  }

  lemma {:induction false} GoneUntilRetaken(log: seq<HeapEvent>, i: nat, n: nat, addr: u32)
    requires i < n <= |log| && log[i] == Freed(addr)
    requires forall k | i < k < n :: log[k] != Took(addr)
    ensures addr !in LiveAfter(log[..n])
    decreases n
  {
    assert Init(log[..n]) == log[..n - 1];
    if n > i + 1 {
      GoneUntilRetaken(log, i, n - 1, addr);
    }
  }

  /** A block is successfully freed at most once for each time it was obtained. */
  lemma FreedOnce(log: seq<HeapEvent>, i: nat, j: nat, addr: u32)
    requires Orderly(log) && i < j < |log| && log[i] == Freed(addr) && log[j] in {Freed(addr), Refused(addr)}
    ensures exists k :: i < k < j && log[k] == Took(addr)
  {
    OrderlyPrefix(log, j + 1);
    assert Init(log[..j + 1]) == log[..j];
    if forall k | i < k < j :: log[k] != Took(addr) {
      GoneUntilRetaken(log, i, j, addr);
    }
  }

  // ---------------------------------------------------------------- who owns which block

  ghost predicate DistinctBlocks(addrs: seq<u32>) {
    forall i, j | 0 <= i < j < |addrs| && addrs[i] != 0 :: addrs[i] != addrs[j]
  }

  predicate AllLive(addrs: seq<u32>, live: set<u32>) {
    forall i | 0 <= i < |addrs| && addrs[i] != 0 :: addrs[i] in live
  }

  /** The guest's table holds distinct live blocks. */
  ghost predicate TableOk(s: Broker) {
    AllLive(s.addrs, s.heap.live) && DistinctBlocks(s.addrs)
  }

  /** The queue holds at most one block: the staging block of the load that finished last. */
  ghost predicate QueueOk(s: Broker)
    requires Shape(s)
  {
    && s.pendingCount <= 1
    && (s.pending[0] != 0 <==> s.pendingCount == 1)
    && (forall k | 1 <= k < PENDING_FREE_MAX :: s.pending[k] == 0)
    && (s.pendingCount == 1 ==> s.pending[0] in s.heap.live && s.pending[0] !in s.addrs)
  }

  /** The staging word owns a block only while a load is in flight; the queue is then empty. */
  ghost predicate StagingOk(s: Broker) {
    s.lmbInFlight ==>
        s.pendingCount == 0 && (s.lmbStaging != 0 ==> s.lmbStaging in s.heap.live && s.lmbStaging !in s.addrs)
  }

  ghost predicate ClosedOk(s: Broker) {
    !s.active ==>
      && !s.lmbInFlight
      && (forall i | 0 <= i < |s.addrs| :: s.addrs[i] == 0)
      && (forall i | 0 <= i < |s.slots| :: s.slots[i] == 0)
  }

  /** Every block is owned in at most one place, and every owned block is out. */
  ghost predicate LedgerOk(s: Broker) {
    Shape(s) && HeapOk(s.heap) && TableOk(s) && QueueOk(s) && StagingOk(s) && ClosedOk(s)
  }

  // ---------------------------------------------------------------- freeing

  lemma {:induction false} FreeAllKeeps(h: Heap, addrs: seq<u32>, refuses: set<u32>)
    requires HeapOk(h) && AllLive(addrs, h.live) && DistinctBlocks(addrs)
    ensures HeapOk(FreeAll(h, addrs, refuses)) && h.log <= FreeAll(h, addrs, refuses).log
    ensures forall a :: a in FreeAll(h, addrs, refuses).live <==> a in h.live && (a == 0 || a !in addrs || a in refuses)
    decreases |addrs|
  {
    hide HeapOk;
    if addrs != [] {
      var rest := addrs[1..];
      if addrs[0] != 0 {
        var n := FreeBlock(h, addrs[0], refuses);
        EventKeepsHeap(h, addrs[0], refuses);
        assert AllLive(rest, n.live) && DistinctBlocks(rest);
        FreeAllKeeps(n, rest, refuses);
        assert addrs[0] !in rest;
      } else {
        FreeAllKeeps(h, rest, refuses);
      }
      assert forall a :: a in addrs <==> a == addrs[0] || a in rest;
    }
  }

  lemma {:induction false} EachIsAttempted(h: Heap, addrs: seq<u32>, refuses: set<u32>, i: nat)
    requires i < |addrs| && addrs[i] != 0
    ensures h.log <= FreeAll(h, addrs, refuses).log
    ensures (if addrs[i] in refuses then Refused(addrs[i])
            else Freed(addrs[i])) in FreeAll(h, addrs, refuses).log[|h.log|..]
    decreases |addrs|
  {
    var n := if addrs[0] != 0 then FreeBlock(h, addrs[0], refuses) else h;
    LogGrows(n, addrs[1..], refuses);
    var log := FreeAll(h, addrs, refuses).log;
    if i == 0 {
      assert log[|h.log|] == n.log[|h.log|];
    } else {
      EachIsAttempted(n, addrs[1..], refuses, i - 1);
      var e := if addrs[i] in refuses then Refused(addrs[i]) else Freed(addrs[i]);
      var k :| |n.log| <= k < |log| && log[k] == e;
      assert log[|h.log|..][k - |h.log|] == e;
    }
  }

  lemma {:induction false} LogGrows(h: Heap, addrs: seq<u32>, refuses: set<u32>)
    ensures h.log <= FreeAll(h, addrs, refuses).log
    decreases |addrs|
  {
    if addrs != [] {
      LogGrows(if addrs[0] != 0 then FreeBlock(h, addrs[0], refuses) else h, addrs[1..], refuses);
    }
  }

  lemma DrainKeeps(s: Broker, refuses: set<u32>)
    requires LedgerOk(s)
    ensures var d := Drain(s, refuses);
            && LedgerOk(d) && d.pendingCount == 0
            && d.heap.live <= s.heap.live
            && forall a | a in s.heap.live ::
                a in d.heap.live || (s.pendingCount == 1 && a == s.pending[0] && a !in refuses)
  {
    hide HeapOk, FreeAll;
    var q := s.pending[..Drained(s)];
    FreeAllKeeps(s.heap, q, refuses);
    assert forall a :: a in q <==> s.pendingCount == 1 && a == s.pending[0];
  }

  // ---------------------------------------------------------------- each step keeps the ledger

  lemma ResetKeeps(s: Broker, active: bool)
    requires LedgerOk(s)
    ensures LedgerOk(Reset(s).(active := active))
  {
    hide HeapOk;
  }

  lemma CloseKeeps(s: Broker, refuses: set<u32>)
    requires LedgerOk(s)
    ensures LedgerOk(Close(s, refuses))
  {
    if s.active {
      DrainKeeps(s, refuses);
      var d := Drain(s, refuses);
      FreeAllKeeps(d.heap, d.addrs, refuses);
      hide HeapOk, FreeAll, Drain;
      assert QueueOk(d) && d.pendingCount == 0;
    }
  }

  lemma RecordedGrantKeeps(d: Broker, grant: u32, slot: nat)
    requires LedgerOk(d) && d.active && d.pendingCount == 0 && grant != 0 && grant !in d.heap.live
    requires slot < MAX_IOP_ALLOCS && d.addrs[slot] == 0
    ensures LedgerOk(d.(heap := TakeBlock(d.heap, grant), addrs := d.addrs[slot := grant]))
  {
    hide HeapOk;
    EventKeepsHeap(d.heap, grant, {});
    assert grant !in d.addrs;
  }

  lemma ReturnedGrantKeeps(d: Broker, grant: u32, refuses: set<u32>)
    requires LedgerOk(d) && grant !in d.heap.live
    ensures LedgerOk(d.(heap := FreeBlock(TakeBlock(d.heap, grant), grant, refuses)))
  {
    hide HeapOk;
    EventKeepsHeap(d.heap, grant, refuses);
    EventKeepsHeap(TakeBlock(d.heap, grant), grant, refuses);
  }

  lemma AllocKeeps(s: Broker, len: u32, out: u32, grant: u32, refuses: set<u32>)
    requires LedgerOk(s) && Enabled(s, DoAlloc(len, out, grant, refuses))
    ensures LedgerOk(IopAlloc(s, len, out, grant, refuses).0)
  {
    hide LedgerOk, Drain, TakeBlock, FreeBlock;
    LedgerShape(s);
    DrainKeeps(s, refuses);
    DrainLeavesTable(s, refuses);
    var d := Drain(s, refuses);
    var slot := Find(d.addrs, 0, 0);
    if s.active && grant != 0 {
      ReturnedGrantKeeps(d, grant, refuses);
      if slot >= 0 {
        RecordedGrantKeeps(d, grant, slot);
      }
    }
  }

  lemma LedgerShape(s: Broker)
    requires LedgerOk(s)
    ensures Shape(s)
  {
  }

  lemma DrainLeavesTable(s: Broker, refuses: set<u32>)
    requires Shape(s)
    ensures Drain(s, refuses).active == s.active && Drain(s, refuses).addrs == s.addrs
  {
  }

  lemma RefusedFreeKeeps(d: Broker, addr: u32, refuses: set<u32>)
    requires LedgerOk(d) && addr in d.heap.live && addr in refuses
    ensures LedgerOk(d.(heap := FreeBlock(d.heap, addr, refuses)))
  {
    hide HeapOk;
    EventKeepsHeap(d.heap, addr, refuses);
  }

  lemma TableFreeKeeps(d: Broker, slot: nat, refuses: set<u32>)
    requires LedgerOk(d) && d.pendingCount == 0 && slot < MAX_IOP_ALLOCS && d.addrs[slot] != 0
    requires d.addrs[slot] !in refuses
    ensures LedgerOk(d.(heap := FreeBlock(d.heap, d.addrs[slot], refuses), addrs := d.addrs[slot := 0]))
  {
    hide HeapOk;
    EventKeepsHeap(d.heap, d.addrs[slot], refuses);
  }

  lemma FreeKeeps(s: Broker, addr: u32, refuses: set<u32>)
    requires LedgerOk(s)
    ensures LedgerOk(IopFree(s, addr, refuses).0)
  {
    hide HeapOk, QueueOk, StagingOk, ClosedOk, DistinctBlocks, Drain, FreeBlock;
    var d := Drain(s, refuses);
    DrainKeeps(s, refuses);
    DrainLeavesTable(s, refuses);
    var slot := Find(s.addrs, addr, 0);
    if s.active && addr != 0 && slot >= 0 {
      assert addr in d.heap.live;
      if addr in refuses {
        RefusedFreeKeeps(d, addr, refuses);
      } else {
        TableFreeKeeps(d, slot, refuses);
      }
    }
  }

  lemma SendKeeps(s: Broker, slot: nat, c: u32, op: Op, sent: bool)
    requires LedgerOk(s) && s.active && slot < PKT_COUNT && c != 0
    ensures LedgerOk(SendFor(s, slot, c, op, sent).0)
  {
    hide HeapOk;
  }

  lemma BindAndCallKeep(s: Broker, c: u32, send: Buffer, recv: Buffer, sent: bool, refuses: set<u32>)
    requires LedgerOk(s)
    ensures LedgerOk(RpcBind(s, c, sent, refuses).0)
    ensures LedgerOk(RpcCall(s, c, send, recv, sent, refuses).0)
  {
    hide LedgerOk, Drain, SendFor, CheckBuffers, RpcBind, RpcCall;
    LedgerShape(s);
    DrainKeeps(s, refuses);
    DrainLeavesTable(s, refuses);
    SubmitOutcomes(s, c, send, recv, sent, refuses);
    var d := Drain(s, refuses);
    var slot := Find(d.slots, 0, 0);
    if s.active && slot >= 0 && c != 0 {
      SendKeeps(d, slot, c, Bind, sent);
      SendKeeps(d, slot, c, Call, sent);
    }
  }

  /** Bind and call do nothing, or only drain, or drain and send. */
  lemma SubmitOutcomes(s: Broker, c: u32, send: Buffer, recv: Buffer, sent: bool, refuses: set<u32>)
    requires Shape(s)
    ensures var d := Drain(s, refuses); var slot := Find(d.slots, 0, 0);
            var bound, called := RpcBind(s, c, sent, refuses).0, RpcCall(s, c, send, recv, sent, refuses).0;
            && (bound in {s, d} || (s.active && slot >= 0 && c != 0 && bound == SendFor(d, slot, c, Bind, sent).0))
            && (called in {s, d} || (s.active && slot >= 0 && c != 0 && called == SendFor(d, slot, c, Call, sent).0))
  {
    hide Drain, SendFor, CheckBuffers;
  }

  lemma PrepareKeeps(s: Broker, c: u32, env: LoadReplies, refuses: set<u32>)
    requires LedgerOk(s)
    ensures var (d, rc) := PrepareLoad(s, c, env, refuses);
            && LedgerOk(d) && d.active == s.active && d.heap.live <= s.heap.live
            && (rc == OK ==> d.pendingCount == 0 && !d.lmbInFlight && d.heap == Drain(s, refuses).heap)
  {
    DrainKeeps(s, refuses);
    hide HeapOk, Drain;
  }

  lemma StagedKeeps(d: Broker, grant: u32, refuses: set<u32>)
    requires LedgerOk(d) && d.active && d.pendingCount == 0 && !d.lmbInFlight && grant != 0 && grant !in d.heap.live
    ensures var t := d.(heap := TakeBlock(d.heap, grant));
            && LedgerOk(t.(lmbInFlight := true, lmbStaging := grant))
            && LedgerOk(t.(heap := FreeBlock(t.heap, grant, refuses)))
  {
    hide HeapOk;
    EventKeepsHeap(d.heap, grant, refuses);
    EventKeepsHeap(TakeBlock(d.heap, grant), grant, refuses);
  }

  lemma FailedSendKeeps(s: Broker)
    requires LedgerOk(s) && s.lmbInFlight
    ensures s.lmbStaging != 0 ==> LedgerOk(Push(s.(lmbInFlight := false), s.lmbStaging))
    ensures LedgerOk(s.(lmbInFlight := false))
    ensures LedgerOk(LoadFinished(s))
  {
    hide HeapOk;
  }

  lemma LoadBufferKeeps(s: Broker, c: u32, irx: u32, irxLen: u32, args: u32, argsLen: u32, env: LoadReplies,
      refuses: set<u32>)
    requires LedgerOk(s) && env.grant !in Drain(s, refuses).heap.live
    ensures LedgerOk(LoadModuleBuffer(s, c, irx, irxLen, args, argsLen, env, refuses).0)
  {
    hide PrepareLoad, Drain, LedgerOk, SendImage, TakeBlock, FreeBlock;
    LedgerShape(s);
    var (d, rc) := PrepareLoad(s, c, env, refuses);
    PrepareKeeps(s, c, env, refuses);
    if s.active && !NoSuchClient(s, c) && rc == OK && env.grant != 0 {
      StagedKeeps(d, env.grant, refuses);
      var slot := Find(d.slots, 0, 0);
      if slot >= 0 {
        SendImageKeeps(d.(heap := TakeBlock(d.heap, env.grant)), slot, c, env.grant, env.sent);
      }
    }
  }

  lemma SendImageKeeps(s: Broker, slot: nat, c: u32, staging: u32, sent: bool)
    requires Shape(s) && LedgerOk(s.(lmbInFlight := true, lmbStaging := staging)) && s.active
    requires staging != 0 && slot < PKT_COUNT && c != 0
    ensures LedgerOk(SendImage(s, slot, c, staging, sent).0)
  {
    hide LedgerOk, Push;
    var staged := s.(lmbInFlight := true, lmbStaging := staging);
    SendKeeps(staged, slot, c, Lmb, sent);
    FailedSendKeeps(SendFor(staged, slot, c, Lmb, sent).0);
  }

  lemma LoadPathKeeps(s: Broker, c: u32, noPath: bool, path: string, args: u32, argsLen: u32, env: LoadReplies,
      refuses: set<u32>)
    requires LedgerOk(s)
    ensures LedgerOk(LoadModulePath(s, c, noPath, path, args, argsLen, env, refuses).0)
  {
    hide PrepareLoad, Drain, HeapOk;
    var (d, rc) := PrepareLoad(s, c, env, refuses);
    PrepareKeeps(s, c, env, refuses);
    if s.active && !NoSuchClient(s, c) && rc == OK {
      var slot := Find(d.slots, 0, 0);
      if slot >= 0 {
        var staged := d.(lmbInFlight := true, lmbStaging := 0);
        SendKeeps(staged, slot, c, Lmb, env.sent);
        hide TableOk, QueueOk, StagingOk, ClosedOk;
        FailedSendKeeps(SendFor(staged, slot, c, Lmb, env.sent).0);
      }
    }
  }
}
