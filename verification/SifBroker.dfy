/** The SIF broker in place: the static tables of `sif_broker.c` and the operations on them. */
module SifBroker {
  import opened Bytes
  import opened BrokerModel

  /** The first index of `a` that holds `x`, or -1. */
  method IndexIn(a: array<u32>, x: u32) returns (i: int)
    ensures i == Find(a[..], x, 0)
  {
    i := 0;
    while i < a.Length
      invariant 0 <= i <= a.Length
      invariant Find(a[..], x, 0) == Find(a[..], x, i)
    {
      if a[i] == x {
        return;
      }
      i := i + 1;
    }
    i := -1;
  }

  method Clear(a: array<u32>, n: nat)
    requires n <= a.Length
    modifies a
    ensures a[..] == Zeroed(old(a[..]), n)
  {
    for i := 0 to n
      invariant forall k | 0 <= k < a.Length :: a[k] == if k < i then 0 else old(a[k])
    {
      a[i] := 0;
    }
  }

  class SifBroker {
    var active: bool
    const addrs: array<u32>
    const slots: array<u32>
    var clients: map<u32, Client>
    const pending: array<u32>
    var pendingCount: nat
    var loadfileBound: bool
    var lmbInFlight: bool
    var lmbStaging: u32
    ghost var heap: Heap
    ghost var issued: nat
    ghost var serials: seq<nat>
    ghost var fired: seq<nat>

    ghost function State(): Broker
      reads this, addrs, slots, pending
    {
      Broker(active, addrs[..], slots[..], clients, pending[..], pendingCount, loadfileBound, lmbInFlight, lmbStaging,
             heap, issued, serials, fired)
    }

    ghost predicate Valid()
      reads this, addrs, slots, pending
    {
      && Shape(State())
      && addrs != slots && addrs != pending && slots != pending
    }

    constructor ()
      ensures Valid() && fresh(addrs) && fresh(slots) && fresh(pending)
      ensures !active && clients == map[] && addrs[..] == Blank(MAX_IOP_ALLOCS) && slots[..] == Blank(PKT_COUNT)
      ensures pending[..] == Blank(PENDING_FREE_MAX) && pendingCount == 0 && !lmbInFlight
      ensures heap == Heap({}, []) && issued == 0 && fired == []
    {
      active := false;
      addrs := new u32[MAX_IOP_ALLOCS](_ => 0);
      slots := new u32[PKT_COUNT](_ => 0);
      pending := new u32[PENDING_FREE_MAX](_ => 0);
      clients, pendingCount, loadfileBound, lmbInFlight, lmbStaging := map[], 0, false, false, 0;
      heap, issued, serials, fired := Heap({}, []), 0, seq(PKT_COUNT, _ => 0), [];
    }

    // -------------------------------------------------------------- the IOP heap

    method FreeIopHeap(addr: u32, refuses: set<u32>) returns (rc: int)
      modifies this`heap
      ensures heap == FreeBlock(old(heap), addr, refuses)
      ensures rc == if addr in refuses then -1 else 0
    {
      heap := FreeBlock(heap, addr, refuses);
      rc := if addr in refuses then -1 else 0;
    }

    method AllocIopHeap(grant: u32) returns (block: u32)
      modifies this`heap
      ensures block == grant && heap == if grant == 0 then old(heap) else TakeBlock(old(heap), grant)
    {
      if grant != 0 {
        heap := TakeBlock(heap, grant);
      }
      block := grant;
    }

    method FreeEach(blocks: array<u32>, n: nat, refuses: set<u32>)
      requires n <= blocks.Length
      modifies this`heap, blocks
      ensures heap == FreeAll(old(heap), old(blocks[..n]), refuses)
      ensures blocks[..] == Zeroed(old(blocks[..]), n)
    {
      ghost var was := blocks[..n];
      for i := 0 to n
        invariant FreeAll(heap, was[i..], refuses) == FreeAll(old(heap), was, refuses)
        invariant forall k | 0 <= k < blocks.Length :: blocks[k] == if k < i then 0 else old(blocks[k])
      {
        assert was[i..][0] == was[i] && was[i..][1..] == was[i + 1..];
        if blocks[i] != 0 {
          var _ := FreeIopHeap(blocks[i], refuses);
          blocks[i] := 0;
        }
      }
    }

    method PendingFreePush(addr: u32)
      requires Valid()
      modifies this`pendingCount, pending
      ensures Valid() && State() == Push(old(State()), addr)
    {
      if pendingCount < PENDING_FREE_MAX {
        pending[pendingCount] := addr;
      }
      pendingCount := pendingCount + 1;
    }

    method PendingFreeDrain(refuses: set<u32>)
      requires Valid()
      modifies this`heap, this`pendingCount, pending
      ensures Valid() && State() == Drain(old(State()), refuses)
    {
      var n := pendingCount;
      if n > PENDING_FREE_MAX {
        n := PENDING_FREE_MAX;
      }
      assert n == Drained(State()) && pending[..n] == State().pending[..n];
      FreeEach(pending, n, refuses);
      pendingCount := 0;
    }

    // -------------------------------------------------------------- open and close

    method ResetSession()
      requires Valid()
      modifies this`loadfileBound, this`lmbInFlight, this`lmbStaging, addrs, slots
      ensures Valid() && State() == Reset(old(State()))
    {
      Clear(addrs, MAX_IOP_ALLOCS);
      Clear(slots, PKT_COUNT);
      loadfileBound, lmbInFlight, lmbStaging := false, false, 0;
      assert addrs[..] == Blank(MAX_IOP_ALLOCS) && slots[..] == Blank(PKT_COUNT);
    }

    method DoOpen() returns (rc: int)
      requires Valid()
      modifies this, addrs, slots
      ensures Valid() && State() == Open(old(State())) && rc == OK
    {
      ResetSession();
      active := true;
      rc := OK;
    }

    method DoClose(refuses: set<u32>)
      requires Valid()
      modifies this, addrs, slots, pending
      ensures Valid() && State() == Close(old(State()), refuses)
    {
      hide Drain, FreeAll;
      if !active {
        return;
      }
      PendingFreeDrain(refuses);
      ghost var d := State();
      assert addrs[..MAX_IOP_ALLOCS] == d.addrs;
      FreeEach(addrs, MAX_IOP_ALLOCS, refuses);
      ResetSession();
      active := false;
    }

    // -------------------------------------------------------------- synchronous operations

    method DoTransfer(ee: u32, iop: u32, len: u32, ok: bool, refuses: set<u32>) returns (rc: int)
      requires Valid()
      modifies this, pending
      ensures Valid() && (State(), rc) == Transfer(old(State()), ee, iop, len, ok, refuses)
    {
      if !active {
        return ENOSESSION;
      }
      if ee == 0 || len == 0 || len > MAX_IOP_XFER {
        return EBADARG;
      }
      if Unaligned(ee, len) || Unaligned(iop, len) {
        return EALIGN;
      }
      PendingFreeDrain(refuses);
      return if ok then OK else EBADARG;
    }

    method DoAlloc(len: u32, out: u32, grant: u32, refuses: set<u32>) returns (rc: int)
      requires Valid()
      modifies this, addrs, pending
      ensures Valid() && (State(), rc) == IopAlloc(old(State()), len, out, grant, refuses)
    {
      hide Drain, TakeBlock, FreeBlock, Find;
      if !active {
        return ENOSESSION;
      }
      if out == 0 || len == 0 {
        return EBADARG;
      }
      PendingFreeDrain(refuses);
      var iop := AllocIopHeap(grant);
      if iop == 0 {
        return ENOMEM;
      }
      var slot := IndexIn(addrs, 0);
      if slot < 0 {
        var _ := FreeIopHeap(iop, refuses);
        return ENOMEM;
      }
      addrs[slot] := iop;
      return OK;
    }

    method DoFree(addr: u32, refuses: set<u32>) returns (rc: int)
      requires Valid()
      modifies this, addrs, pending
      ensures Valid() && (State(), rc) == IopFree(old(State()), addr, refuses)
    {
      hide Drain, FreeBlock, Find;
      if !active {
        return ENOSESSION;
      }
      if addr == 0 {
        return EBADARG;
      }
      var slot := IndexIn(addrs, addr);
      if slot < 0 {
        return EBADARG;
      }
      PendingFreeDrain(refuses);
      var freed := FreeIopHeap(addr, refuses);
      if freed < 0 {
        return EBADARG;
      }
      addrs[slot] := 0;
      return OK;
    }

    // -------------------------------------------------------------- submitting

    method SendPacket(slot: nat, c: u32, op: Op, sent: bool) returns (rc: int)
      requires Valid() && slot < PKT_COUNT && c != 0
      modifies this`clients, this`issued, this`serials, slots
      ensures Valid() && (State(), rc) == SendFor(old(State()), slot, c, op, sent)
    {
      clients := clients[c := ClientIn(clients, c).(status := InFlight, op := op, result := ETIMEOUT)];
      slots[slot] := c;
      assert State() == Submit(old(State()), slot, c, op);
      if !sent {
        slots[slot] := 0;
        clients := clients[c := clients[c].(status := Idle)];
        return EBADARG;
      }
      serials := serials[slot := issued];
      issued := issued + 1;
      return EINFLIGHT;
    }

    method DoBind(c: u32, sent: bool, refuses: set<u32>) returns (rc: int)
      requires Valid()
      modifies this, slots, pending
      ensures Valid() && (State(), rc) == RpcBind(old(State()), c, sent, refuses)
    {
      if !active {
        return ENOSESSION;
      }
      if c == 0 || !ClientIn(clients, c).hasDone {
        return EBADARG;
      }
      if ClientIn(clients, c).status == InFlight {
        return EBUSY;
      }
      PendingFreeDrain(refuses);
      var slot := IndexIn(slots, 0);
      if slot < 0 {
        return EBADARG;
      }
      rc := SendPacket(slot, c, Bind, sent);
    }

    method DoCall(c: u32, send: Buffer, recv: Buffer, sent: bool, refuses: set<u32>) returns (rc: int)
      requires Valid()
      modifies this, slots, pending
      ensures Valid() && (State(), rc) == RpcCall(old(State()), c, send, recv, sent, refuses)
    {
      hide CheckBuffers, Drain, SendFor, Find;
      if !active {
        return ENOSESSION;
      }
      if c == 0 || !ClientIn(clients, c).hasDone {
        return EBADARG;
      }
      if ClientIn(clients, c).status == InFlight {
        return EBUSY;
      }
      if ClientIn(clients, c).server == 0 || ClientIn(clients, c).buf == 0 {
        return EBADARG;
      }
      if CheckBuffers(send, recv) != OK {
        return CheckBuffers(send, recv);
      }
      PendingFreeDrain(refuses);
      var slot := IndexIn(slots, 0);
      if slot < 0 {
        return EBADARG;
      }
      rc := SendPacket(slot, c, Call, sent);
    }

    method BeginLoad(c: u32, env: LoadReplies, refuses: set<u32>) returns (rc: int)
      requires Valid()
      modifies this, pending
      ensures Valid() && (State(), rc) == PrepareLoad(old(State()), c, env, refuses)
    {
      if ClientIn(clients, c).status == InFlight || lmbInFlight {
        return EBUSY;
      }
      PendingFreeDrain(refuses);
      if !loadfileBound {
        if !env.bound {
          return EBADARG;
        }
        loadfileBound := true;
      }
      return OK;
    }

    /** The last part of the buffer load. */
    method SendStaged(slot: nat, c: u32, staging: u32, sent: bool) returns (rc: int)
      requires Valid() && slot < PKT_COUNT && c != 0
      modifies this, slots, pending
      ensures Valid() && (State(), rc) == SendImage(old(State()), slot, c, staging, sent)
    {
      hide SendFor, Push;
      lmbInFlight, lmbStaging := true, staging;
      rc := SendPacket(slot, c, Lmb, sent);
      if rc != EINFLIGHT {
        lmbInFlight := false;
        PendingFreePush(staging);
      }
    }

    method DoLoadBuffer(c: u32, irx: u32, irxLen: u32, args: u32, argsLen: u32, env: LoadReplies,
        refuses: set<u32>) returns (rc: int)
      requires Valid()
      modifies this, slots, pending
      ensures Valid() && (State(), rc) == LoadModuleBuffer(old(State()), c, irx, irxLen, args, argsLen, env, refuses)
    {
      hide PrepareLoad, SendImage, Find, TakeBlock, FreeBlock;
      if !active {
        return ENOSESSION;
      }
      if c == 0 || !ClientIn(clients, c).hasDone {
        return EBADARG;
      }
      if irx == 0 || irxLen == 0 || argsLen > MAX_MODULE_ARGS || (argsLen != 0 && args == 0) {
        return EBADARG;
      }
      rc := BeginLoad(c, env, refuses);
      if rc != OK {
        return;
      }
      var staging := AllocIopHeap(env.grant);
      if staging == 0 {
        return ENOMEM;
      }
      if !env.written {
        var _ := FreeIopHeap(staging, refuses);
        return EBADARG;
      }
      var slot := IndexIn(slots, 0);
      if slot < 0 {
        var _ := FreeIopHeap(staging, refuses);
        return EBADARG;
      }
      rc := SendStaged(slot, c, staging, env.sent);
    }

    method DoLoadPath(c: u32, noPath: bool, path: string, args: u32, argsLen: u32, env: LoadReplies,
        refuses: set<u32>) returns (rc: int)
      requires Valid()
      modifies this, slots, pending
      ensures Valid() && (State(), rc) == LoadModulePath(old(State()), c, noPath, path, args, argsLen, env, refuses)
    {
      hide PrepareLoad, SendFor, Find, Rom0Path;
      if !active {
        return ENOSESSION;
      }
      if c == 0 || !ClientIn(clients, c).hasDone {
        return EBADARG;
      }
      if noPath || argsLen > MAX_MODULE_ARGS || (argsLen != 0 && args == 0) || !Rom0Path(path) {
        return EBADARG;
      }
      rc := BeginLoad(c, env, refuses);
      if rc != OK {
        return;
      }
      var slot := IndexIn(slots, 0);
      if slot < 0 {
        return EBADARG;
      }
      lmbInFlight, lmbStaging := true, 0;
      rc := SendPacket(slot, c, Lmb, env.sent);
      if rc != EINFLIGHT {
        lmbInFlight := false;
      }
    }

    // -------------------------------------------------------------- the interrupt handler

    method FinishLoad()
      requires Valid()
      modifies this`lmbStaging, this`lmbInFlight, this`pendingCount, pending
      ensures Valid() && State() == LoadFinished(old(State()))
    {
      if lmbStaging != 0 {
        PendingFreePush(lmbStaging);
        lmbStaging := 0;
      }
      lmbInFlight := false;
    }

    method BrokerComplete(c: u32, ghost slot: nat, r: Reply)
      requires Valid() && slot < PKT_COUNT && c in clients
      modifies this, pending
      ensures Valid() && State() == Complete(old(State()), c, slot, r)
    {
      hide LoadFinished;
      var client := clients[c];
      if client.op == Lmb {
        FinishLoad();
      }
      clients := clients[c := Completed(client, r)];
      if client.hasDone {
        fired := fired + [serials[slot]];
      }
    }

    /** `ps2_sif_broker_isr` on an RPC_END packet. */
    method Isr(r: Reply)
      requires Valid()
      modifies this, slots, pending
      ensures Valid() && State() == OnReply(old(State()), r)
    {
      hide Find, Complete;
      var slot := IndexIn(slots, r.cd);
      if slot >= 0 {
        var c := slots[slot];
        slots[slot] := 0;
        if c != 0 && c in clients {
          BrokerComplete(c, slot, r);
        }
      }
    }
  }
}
