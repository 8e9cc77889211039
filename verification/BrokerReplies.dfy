/** What a reply means to the guest that is waiting for it, over runs of the SIF broker. */
module BrokerReplies {
  import opened Bytes
  import opened BrokerModel
  import opened BrokerLedger
  import opened BrokerRuns

  // ---------------------------------------------------------------- while a client waits

  /** Client c waits in slot i, with these private words. */
  predicate Waits(s: Broker, i: nat, c: u32, words: Client)
    requires Shape(s)
  {
    s.active && i < PKT_COUNT && s.slots[i] == c != 0 && c in s.clients && s.clients[c] == words
  }

  lemma SendLeavesWaiter(s: Broker, slot: nat, d: u32, op: Op, sent: bool, i: nat, c: u32, words: Client)
    requires Shape(s) && slot < PKT_COUNT && s.slots[slot] == 0 && d != 0 && d != c && Waits(s, i, c, words)
    ensures Waits(SendFor(s, slot, d, op, sent).0, i, c, words)
  {
  }

  lemma DrainLeavesWaiter(s: Broker, refuses: set<u32>, i: nat, c: u32, words: Client)
    requires Shape(s) && Waits(s, i, c, words)
    ensures Waits(Drain(s, refuses), i, c, words)
  {
  }

  lemma BindAndCallLeaveWaiter(s: Broker, step: Step, i: nat, c: u32, words: Client)
    requires Shape(s) && Waits(s, i, c, words) && words.status == InFlight && (step.DoBind? || step.DoCall?)
    ensures Waits(Next(s, step), i, c, words)
  {
    hide Drain, SendFor, CheckBuffers;
    var d := Drain(s, step.refuses);
    DrainLeavesSlots(s, step.refuses);
    DrainLeavesWaiter(s, step.refuses, i, c, words);
    var slot := Find(d.slots, 0, 0);
    if slot >= 0 && step.c != 0 && step.c != c {
      SendLeavesWaiter(d, slot, step.c, Bind, step.sent, i, c, words);
      SendLeavesWaiter(d, slot, step.c, Call, step.sent, i, c, words);
    }
  }

  lemma PrepareLeavesWaiter(s: Broker, d: u32, env: LoadReplies, refuses: set<u32>, i: nat, c: u32, words: Client)
    requires Shape(s) && Waits(s, i, c, words)
    ensures Waits(PrepareLoad(s, d, env, refuses).0, i, c, words)
    ensures PrepareLoad(s, d, env, refuses).1 == OK ==> ClientOf(s, d).status != InFlight
  {
    hide FreeAll, Zeroed;
  }

  lemma SendImageLeavesWaiter(s: Broker, slot: nat, d: u32, staging: u32, sent: bool, i: nat, c: u32, words: Client)
    requires Shape(s) && slot < PKT_COUNT && s.slots[slot] == 0 && d != 0 && d != c && Waits(s, i, c, words)
    ensures Waits(SendImage(s, slot, d, staging, sent).0, i, c, words)
  {
    hide SendFor;
    SendLeavesWaiter(s.(lmbInFlight := true, lmbStaging := staging), slot, d, Lmb, sent, i, c, words);
  }

  lemma LoadBufferLeavesWaiter(s: Broker, step: Step, i: nat, c: u32, words: Client)
    requires Shape(s) && Waits(s, i, c, words) && words.status == InFlight && step.DoLoadBuffer?
    ensures Waits(Next(s, step), i, c, words)
  {
    hide PrepareLoad, SendImage, TakeBlock, FreeBlock;
    var (d, rc) := PrepareLoad(s, step.c, step.env, step.refuses);
    PrepareLeavesWaiter(s, step.c, step.env, step.refuses, i, c, words);
    var slot := Find(d.slots, 0, 0);
    if rc == OK && slot >= 0 && step.c != 0 {
      var taken := d.(heap := TakeBlock(d.heap, step.env.grant));
      SendImageLeavesWaiter(taken, slot, step.c, step.env.grant, step.env.sent, i, c, words);
    }
  }

  lemma LoadPathLeavesWaiter(s: Broker, step: Step, i: nat, c: u32, words: Client)
    requires Shape(s) && Waits(s, i, c, words) && words.status == InFlight && step.DoLoadPath?
    ensures Waits(Next(s, step), i, c, words)
  {
    hide PrepareLoad, SendFor, Rom0Path;
    var (d, rc) := PrepareLoad(s, step.c, step.env, step.refuses);
    PrepareLeavesWaiter(s, step.c, step.env, step.refuses, i, c, words);
    var slot := Find(d.slots, 0, 0);
    if rc == OK && slot >= 0 && step.c != 0 {
      var flagged := d.(lmbInFlight := true, lmbStaging := 0);
      SendLeavesWaiter(flagged, slot, step.c, Lmb, step.env.sent, i, c, words);
    }
  }

  lemma ReplyLeavesWaiter(s: Broker, r: Reply, i: nat, c: u32, words: Client)
    requires Shape(s) && Waits(s, i, c, words) && r.cd != c
    ensures Waits(OnReply(s, r), i, c, words)
  {
    hide Completed;
  }

  lemma OtherStepsLeaveWaiter(s: Broker, step: Step, i: nat, c: u32, words: Client)
    requires Shape(s) && Enabled(s, step) && Waits(s, i, c, words)
    requires step.DoTransfer? || step.DoAlloc? || step.DoFree? || step.DoInit?
    ensures Waits(Next(s, step), i, c, words)
  {
    hide FreeAll, Zeroed, Unaligned;
  }

  lemma StepLeavesWaiter(s: Broker, step: Step, i: nat, c: u32, words: Client)
    requires Shape(s) && Enabled(s, step) && Waits(s, i, c, words) && words.status == InFlight && !Ends(step, c)
    ensures Waits(Next(s, step), i, c, words)
  {
    hide Waits, Next;
    match step {
      case DoBind(_, _, _) => BindAndCallLeaveWaiter(s, step, i, c, words);
      case DoCall(_, _, _, _, _) => BindAndCallLeaveWaiter(s, step, i, c, words);
      case DoLoadBuffer(_, _, _, _, _, _, _) => LoadBufferLeavesWaiter(s, step, i, c, words);
      case DoLoadPath(_, _, _, _, _, _, _) => LoadPathLeavesWaiter(s, step, i, c, words);
      case DoReply(reply) => ReplyStepLeavesWaiter(s, reply, i, c, words);
      case _ => OtherStepsLeaveWaiter(s, step, i, c, words);
    }
  }

  lemma ReplyStepLeavesWaiter(s: Broker, r: Reply, i: nat, c: u32, words: Client)
    requires Shape(s) && Waits(s, i, c, words) && r.cd != c
    ensures Waits(Next(s, DoReply(r)), i, c, words)
  {
    hide OnReply;
    ReplyLeavesWaiter(s, r, i, c, words);
  }

  lemma {:induction false} RunLeavesWaiter(s: Broker, steps: seq<Step>, i: nat, c: u32, words: Client)
    requires Shape(s) && Possible(s, steps) && Waits(s, i, c, words) && words.status == InFlight
    requires forall n | 0 <= n < |steps| :: !Ends(steps[n], c)
    ensures Waits(Run(s, steps), i, c, words)
    decreases |steps|
  {
    hide Waits, Next, Enabled, Ends;
    if steps != [] {
      StepLeavesWaiter(s, steps[0], i, c, words);
      RunLeavesWaiter(Next(s, steps[0]), steps[1..], i, c, words);
    }
  }

  // ---------------------------------------------------------------- the reply

  /** What the guest finds in its client after a reply to a request of each kind. */
  lemma ReplyMeans(s: Broker, r: Reply, i: nat, words: Client)
    requires Shape(s) && Waits(s, i, r.cd, words)
    ensures var t := OnReply(s, r);
            && t.active && Find(t.slots, 0, 0) >= 0 && r.cd in t.clients
            && var now := t.clients[r.cd];
               && now.status == Done && now.hasDone == words.hasDone
               && (words.op == Bind ==> now.server == r.sd && now.buf == r.buf && now.cbuf == r.cbuf
                                        && now.result == if r.sd == 0 then -7 else 0)
               && (words.op == Call ==> now.result == 0)
               && (words.op == Lmb ==> now.result == if r.loaded < 0 then -3 else r.loaded)
               && (words.op != Bind ==> now.server == words.server && now.buf == words.buf && now.cbuf == words.cbuf)
  {
    var slot := Find(s.slots, r.cd, 0);
    assert slot >= 0;
    var t := OnReply(s, r);
    assert t.slots[slot] == 0;
  }

  lemma AcceptedWaits(s: Broker, slot: nat, c: u32, op: Op)
    requires Shape(s) && s.active && slot < PKT_COUNT && c != 0
    ensures SendFor(s, slot, c, op, true).1 == EINFLIGHT
    ensures Waits(SendFor(s, slot, c, op, true).0, slot, c,
                ClientOf(s, c).(status := InFlight, op := op, result := ETIMEOUT))
  {
  }

  /** An accepted bind, whatever happens to others meanwhile: its reply leaves the server and the two buffers it
      names, and OK, or ENOSRV when it names no server. */
  lemma BindIsAnswered(s: Broker, c: u32, refuses: set<u32>, steps: seq<Step>, r: Reply)
    requires Shape(s) && RpcBind(s, c, true, refuses).1 == EINFLIGHT && r.cd == c
    requires Possible(RpcBind(s, c, true, refuses).0, steps) && forall n | 0 <= n < |steps| :: !Ends(steps[n], c)
    ensures var t := OnReply(Run(RpcBind(s, c, true, refuses).0, steps), r);
            && t.active && Find(t.slots, 0, 0) >= 0 && c in t.clients
            && var now := t.clients[c];
               && now.status == Done && now.hasDone && now.server == r.sd && now.buf == r.buf && now.cbuf == r.cbuf
               && now.result == if r.sd == 0 then -7 else 0
  {
    hide Possible, Run, Waits, OnReply, Ends;
    var i, words := BindWaits(s, c, refuses);
    RunLeavesWaiter(RpcBind(s, c, true, refuses).0, steps, i, c, words);
    ReplyMeans(Run(RpcBind(s, c, true, refuses).0, steps), r, i, words);
  }

  lemma BindWaits(s: Broker, c: u32, refuses: set<u32>) returns (i: nat, words: Client)
    requires Shape(s) && RpcBind(s, c, true, refuses).1 == EINFLIGHT
    ensures Waits(RpcBind(s, c, true, refuses).0, i, c, words)
    ensures words == ClientOf(s, c).(status := InFlight, op := Bind, result := ETIMEOUT) && words.hasDone
  {
    hide Drain, SendFor, Waits;
    DrainLeavesSlots(s, refuses);
    DrainIsActive(s, refuses);
    var d := Drain(s, refuses);
    i, words := Find(d.slots, 0, 0), ClientOf(s, c).(status := InFlight, op := Bind, result := ETIMEOUT);
    AcceptedWaits(d, i, c, Bind);
  }

  lemma DrainIsActive(s: Broker, refuses: set<u32>)
    requires Shape(s)
    ensures Drain(s, refuses).active == s.active
  {
  }

  lemma CallWaits(s: Broker, c: u32, send: Buffer, recv: Buffer, refuses: set<u32>) returns (i: nat, words: Client)
    requires Shape(s) && RpcCall(s, c, send, recv, true, refuses).1 == EINFLIGHT
    ensures Waits(RpcCall(s, c, send, recv, true, refuses).0, i, c, words)
    ensures words == ClientOf(s, c).(status := InFlight, op := Call, result := ETIMEOUT) && words.hasDone
  {
    hide Drain, SendFor, Waits, CheckBuffers;
    DrainLeavesSlots(s, refuses);
    DrainIsActive(s, refuses);
    var d := Drain(s, refuses);
    CallAccepted(s, c, send, recv, refuses);
    i, words := Find(d.slots, 0, 0), ClientOf(s, c).(status := InFlight, op := Call, result := ETIMEOUT);
    AcceptedWaits(d, i, c, Call);
  }

  lemma CallAccepted(s: Broker, c: u32, send: Buffer, recv: Buffer, refuses: set<u32>)
    requires Shape(s) && RpcCall(s, c, send, recv, true, refuses).1 == EINFLIGHT
    ensures s.active && c != 0 && ClientOf(s, c).hasDone && ClientOf(s, c).status != InFlight
    ensures var d := Drain(s, refuses);
            && Find(d.slots, 0, 0) >= 0
            && RpcCall(s, c, send, recv, true, refuses) == SendFor(d, Find(d.slots, 0, 0), c, Call, true)
  {
    hide Drain, SendFor;
  }

  /** An accepted call: its reply leaves OK and keeps the binding. */
  lemma CallIsAnswered(s: Broker, c: u32, send: Buffer, recv: Buffer, refuses: set<u32>, steps: seq<Step>, r: Reply)
    requires Shape(s) && RpcCall(s, c, send, recv, true, refuses).1 == EINFLIGHT && r.cd == c
    requires Possible(RpcCall(s, c, send, recv, true, refuses).0, steps)
    requires forall n | 0 <= n < |steps| :: !Ends(steps[n], c)
    ensures var t := OnReply(Run(RpcCall(s, c, send, recv, true, refuses).0, steps), r);
            && c in t.clients
            && var was, now := ClientOf(s, c), t.clients[c];
               && now.status == Done && now.result == 0
               && now.server == was.server && now.buf == was.buf && now.cbuf == was.cbuf
  {
    hide Possible, Run, Waits, OnReply, Ends, RpcCall;
    var i, words := CallWaits(s, c, send, recv, refuses);
    RunLeavesWaiter(RpcCall(s, c, send, recv, true, refuses).0, steps, i, c, words);
    ReplyMeans(Run(RpcCall(s, c, send, recv, true, refuses).0, steps), r, i, words);
  }

  /** A client that runs a module load: its reply leaves the module's id, or EBADARG for a failed one. */
  lemma LoadIsAnswered(s: Broker, i: nat, c: u32, words: Client, steps: seq<Step>, r: Reply)
    requires Shape(s) && Waits(s, i, c, words) && words.status == InFlight && words.op == Lmb && r.cd == c
    requires Possible(s, steps) && forall n | 0 <= n < |steps| :: !Ends(steps[n], c)
    ensures var t := OnReply(Run(s, steps), r);
            && c in t.clients
            && var now := t.clients[c];
               && now.status == Done && now.result == (if r.loaded < 0 then -3 else r.loaded)
               && now.server == words.server && now.buf == words.buf && now.cbuf == words.cbuf
  {
    hide Possible, Run, Waits, OnReply, Ends;
    RunLeavesWaiter(s, steps, i, c, words);
    ReplyMeans(Run(s, steps), r, i, words);
  }

  lemma LoadWaits(s: Broker, c: u32, irx: u32, irxLen: u32, args: u32, argsLen: u32, env: LoadReplies,
      refuses: set<u32>) returns (i: nat)
    requires Shape(s) && LoadModuleBuffer(s, c, irx, irxLen, args, argsLen, env, refuses).1 == EINFLIGHT
    ensures Waits(LoadModuleBuffer(s, c, irx, irxLen, args, argsLen, env, refuses).0, i, c,
                ClientOf(s, c).(status := InFlight, op := Lmb, result := ETIMEOUT))
  {
    hide FreeAll, Zeroed, TakeBlock, FreeBlock, Push;
    i := Find(PrepareLoad(s, c, env, refuses).0.slots, 0, 0);
  }

  lemma PathLoadWaits(s: Broker, c: u32, noPath: bool, path: string, args: u32, argsLen: u32, env: LoadReplies,
      refuses: set<u32>) returns (i: nat)
    requires Shape(s) && LoadModulePath(s, c, noPath, path, args, argsLen, env, refuses).1 == EINFLIGHT
    ensures Waits(LoadModulePath(s, c, noPath, path, args, argsLen, env, refuses).0, i, c,
                ClientOf(s, c).(status := InFlight, op := Lmb, result := ETIMEOUT))
  {
    hide FreeAll, Zeroed, Rom0Path;
    i := Find(PrepareLoad(s, c, env, refuses).0.slots, 0, 0);
  }

  /** Bind, then call: after a bind answered with a server and a buffer, a call with valid buffers goes out. */
  lemma BoundClientCanCall(s: Broker, c: u32, refuses: set<u32>, steps: seq<Step>, r: Reply, send: Buffer,
      recv: Buffer, again: set<u32>)
    requires Shape(s) && RpcBind(s, c, true, refuses).1 == EINFLIGHT && r.cd == c && r.sd != 0 && r.buf != 0
    requires Possible(RpcBind(s, c, true, refuses).0, steps) && forall n | 0 <= n < |steps| :: !Ends(steps[n], c)
    requires CheckBuffers(send, recv) == OK
    ensures RpcCall(OnReply(Run(RpcBind(s, c, true, refuses).0, steps), r), c, send, recv, true, again).1 == EINFLIGHT
  {
    hide Possible, Run, OnReply, Ends, RpcBind, RpcCall, CheckBuffers;
    BindIsAnswered(s, c, refuses, steps, r);
    CallGoesOut(OnReply(Run(RpcBind(s, c, true, refuses).0, steps), r), c, send, recv, again);
  }

  lemma CallGoesOut(s: Broker, c: u32, send: Buffer, recv: Buffer, refuses: set<u32>)
    requires Shape(s) && s.active && Find(s.slots, 0, 0) >= 0 && CheckBuffers(send, recv) == OK && c in s.clients
    requires s.clients[c].hasDone && s.clients[c].status == Done && s.clients[c].server != 0 && s.clients[c].buf != 0
    ensures RpcCall(s, c, send, recv, true, refuses).1 == EINFLIGHT
  {
    hide Drain, SendFor, CheckBuffers;
    DrainLeavesSlots(s, refuses);
    DrainIsActive(s, refuses);
    SendsOut(Drain(s, refuses), Find(s.slots, 0, 0), c);
  }

  lemma SendsOut(s: Broker, slot: nat, c: u32)
    requires Shape(s) && slot < PKT_COUNT && c != 0
    ensures SendFor(s, slot, c, Call, true).1 == EINFLIGHT
  {
  }

  /** The buffers a call takes: at most 64 KiB each, and whichever is not empty at an address that, like
      its length, is a multiple of 16; -2 is only for alignment. */
  lemma BuffersAccepted(send: Buffer, recv: Buffer)
    ensures var rc := CheckBuffers(send, recv);
            var there := forall b | b in [send, recv] :: b.len <= 0x1_0000 && (b.len != 0 ==> b.at != 0);
            var aligned := forall b | b in [send, recv] :: b.len != 0 ==> b.at % 16 == 0 && b.len % 16 == 0;
            rc == if !there then -3 else if !aligned then -2 else 0
  {
    assert [send, recv][0] == send && [send, recv][1] == recv;
  }

  // ---------------------------------------------------------------- what each request is answered

  /** No block on record, no packet out, LOADFILE unbound and no load in flight. */
  ghost predicate NothingOpen(s: Broker) {
    && Shape(s) && (forall k | 0 <= k < 32 :: s.addrs[k] == 0) && (forall k | 0 <= k < 8 :: s.slots[k] == 0)
    && !s.loadfileBound && !s.lmbInFlight && s.lmbStaging == 0
  }

  /** Open starts an empty session, close ends one with the deferred queue drained; neither touches a client,
      and close does nothing without a session. */
  lemma SessionBounds(s: Broker, refuses: set<u32>)
    requires Shape(s)
    ensures var o := Open(s); o.active && NothingOpen(o) && o.clients == s.clients && o.heap == s.heap
    ensures var c := Close(s, refuses);
            && !c.active && c.clients == s.clients
            && (s.active ==> NothingOpen(c) && c.pendingCount == 0) && (!s.active ==> c == s)
  {
    hide FreeAll;
  }

  /** A transfer takes 1 to 65536 bytes, all three numbers multiples of 16; -2 is only for alignment. */
  lemma TransferAnswers(s: Broker, ee: u32, iop: u32, len: u32, ok: bool, refuses: set<u32>)
    requires Shape(s)
    ensures var rc := Transfer(s, ee, iop, len, ok, refuses).1;
            var sized, aligned := ee != 0 && 1 <= len <= 65536, ee % 16 == 0 && iop % 16 == 0 && len % 16 == 0;
            && (rc == 0 <==> s.active && sized && aligned && ok)
            && (rc == -2 <==> s.active && sized && !aligned)
            && (rc == -5 <==> !s.active) && rc in {0, -2, -3, -5}
  {
  }

  /** An allocation succeeds if the IOP grants a block and the table has room, and is then in the table. */
  lemma AllocAnswers(s: Broker, len: u32, out: u32, grant: u32, refuses: set<u32>)
    requires Shape(s)
    ensures var (t, rc) := IopAlloc(s, len, out, grant, refuses);
            && (rc == 0 <==> s.active && out != 0 && len != 0 && grant != 0 && 0 in s.addrs)
            && (rc == 0 ==> grant in t.addrs)
            && (rc == -4 <==> s.active && out != 0 && len != 0 && (grant == 0 || 0 !in s.addrs))
            && (rc == -5 <==> !s.active) && rc in {0, -3, -4, -5}
  {
    hide Drain;
    DrainLeavesTable(s, refuses);
    var slot := Find(s.addrs, 0, 0);
    if slot >= 0 && IopAlloc(s, len, out, grant, refuses).1 == 0 {
      assert IopAlloc(s, len, out, grant, refuses).0.addrs[slot] == grant;
    }
  }

  lemma DrainLeavesTable(s: Broker, refuses: set<u32>)
    requires Shape(s)
    ensures Drain(s, refuses).addrs == s.addrs
  {
  }

  /** A free succeeds exactly for a block in the table that the IOP does not refuse. */
  lemma FreeAnswers(s: Broker, addr: u32, refuses: set<u32>)
    requires Shape(s)
    ensures var rc := IopFree(s, addr, refuses).1;
            && (rc == 0 <==> s.active && addr != 0 && addr in s.addrs && addr !in refuses)
            && (rc == -5 <==> !s.active) && rc in {0, -3, -5}
  {
  }

  /** A client that may submit: known to the guest, with a callback, and not busy. */
  ghost predicate MaySubmit(s: Broker, c: u32) {
    s.active && c != 0 && c in s.clients && s.clients[c].hasDone && s.clients[c].status != InFlight
  }

  ghost predicate Busy(s: Broker, c: u32) {
    s.active && c != 0 && c in s.clients && s.clients[c].hasDone && s.clients[c].status == InFlight
  }

  /** A bind goes out from a client that may submit, with a packet slot free. */
  lemma BindAnswers(s: Broker, c: u32, sent: bool, refuses: set<u32>)
    requires Shape(s)
    ensures var rc := RpcBind(s, c, sent, refuses).1;
            && (rc == 1 <==> MaySubmit(s, c) && 0 in s.slots && sent)
            && (rc == -1 <==> Busy(s, c))
            && (rc == -5 <==> !s.active) && rc in {1, -1, -3, -5}
  {
  }

  /** So does a call, if the client is bound and its buffers are good. */
  lemma CallAnswers(s: Broker, c: u32, send: Buffer, recv: Buffer, sent: bool, refuses: set<u32>)
    requires Shape(s)
    ensures var rc := RpcCall(s, c, send, recv, sent, refuses).1;
            var bound := MaySubmit(s, c) && s.clients[c].server != 0 && s.clients[c].buf != 0;
            && (rc == 1 <==> bound && CheckBuffers(send, recv) == 0 && 0 in s.slots && sent)
            && (rc == -2 <==> bound && CheckBuffers(send, recv) == -2)
            && (rc == -1 <==> Busy(s, c))
            && (rc == -5 <==> !s.active) && rc in {1, -1, -2, -3, -5}
  {
    hide CheckBuffers;
  }

  /** The arguments of a module load: at most 252 bytes, and not without an address. */
  ghost predicate ArgsOk(args: u32, len: u32) {
    len <= 252 && (len == 0 || args != 0)
  }

  /** A load from a buffer goes out if LOADFILE is or gets bound, the IOP grants a staging block and takes the
      image, no other load is in flight and a slot is free; LOADFILE then stays bound. */
  lemma LoadAnswers(s: Broker, c: u32, irx: u32, irxLen: u32, args: u32, argsLen: u32, env: LoadReplies,
      refuses: set<u32>)
    requires Shape(s)
    ensures var (t, rc) := LoadModuleBuffer(s, c, irx, irxLen, args, argsLen, env, refuses);
            var given := irx != 0 && irxLen != 0 && ArgsOk(args, argsLen);
            var ready := given && MaySubmit(s, c) && !s.lmbInFlight && (s.loadfileBound || env.bound);
            && (rc == 1 <==> ready && env.grant != 0 && env.written && 0 in s.slots && env.sent)
            && (rc == 1 ==> t.lmbInFlight && t.lmbStaging == env.grant) && (ready ==> t.loadfileBound)
            && (rc == -4 <==> ready && env.grant == 0)
            && (rc == -1 <==> given && (Busy(s, c) || (MaySubmit(s, c) && s.lmbInFlight)))
            && (rc == -5 <==> !s.active) && rc in {1, -1, -3, -4, -5}
  {
    hide FreeAll, Zeroed, TakeBlock, FreeBlock;
  }

  /** A load by path takes a path on rom0: that fits its packet. */
  lemma PathAnswers(s: Broker, c: u32, noPath: bool, path: string, args: u32, argsLen: u32, env: LoadReplies,
      refuses: set<u32>)
    requires Shape(s)
    ensures var (t, rc) := LoadModulePath(s, c, noPath, path, args, argsLen, env, refuses);
            var given := !noPath && |path| < 252 && "rom0:" <= path && ArgsOk(args, argsLen);
            var ready := given && MaySubmit(s, c) && !s.lmbInFlight && (s.loadfileBound || env.bound);
            && (rc == 1 <==> ready && 0 in s.slots && env.sent)
            && (rc == 1 ==> t.lmbInFlight && t.lmbStaging == 0) && (ready ==> t.loadfileBound)
            && (rc == -1 <==> given && (Busy(s, c) || (MaySubmit(s, c) && s.lmbInFlight)))
            && (rc == -5 <==> !s.active) && rc in {1, -1, -3, -5}
  {
    hide FreeAll, Zeroed;
  }
}
