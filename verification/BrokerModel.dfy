/**
 The EE-side SIF broker, `sif_broker.c`, as a value: session table, packet slots, the one
 module load in flight, the deferred-free queue, the guest's client structs, the IOP heap,
 and a history of what was submitted, completed, taken and freed.
 */
module BrokerModel {
  import opened Bytes

  const MAX_IOP_ALLOCS := 32
  const PKT_COUNT := 8
  const PENDING_FREE_MAX := 8
  const MAX_RPC_XFER := 65536
  const MAX_IOP_XFER := 65536
  const MAX_MODULE_ARGS := 252

  const OK := 0
  const EINFLIGHT := 1
  const EBUSY := -1
  const EALIGN := -2
  const EBADARG := -3
  const ENOMEM := -4
  const ENOSESSION := -5
  const ENOSRV := -7
  const ETIMEOUT := -8

  // ---------------------------------------------------------------- the IOP heap

  datatype HeapEvent = Took(addr: u32) | Freed(addr: u32) | Refused(addr: u32)

  datatype Heap = Heap(live: set<u32>, log: seq<HeapEvent>)

  /** A free request: the IOP may refuse it, and then the block stays. */
  function FreeBlock(h: Heap, addr: u32, refuses: set<u32>): Heap {
    if addr in refuses then Heap(h.live, h.log + [Refused(addr)]) else Heap(h.live - {addr}, h.log + [Freed(addr)])
  }

  function TakeBlock(h: Heap, addr: u32): Heap {
    Heap(h.live + {addr}, h.log + [Took(addr)])
  }

  function FreeAll(h: Heap, addrs: seq<u32>, refuses: set<u32>): Heap
    decreases |addrs|
  {
    if addrs == [] then h
    else FreeAll(if addrs[0] != 0 then FreeBlock(h, addrs[0], refuses) else h, addrs[1..], refuses)
  }

  // ---------------------------------------------------------------- the state

  datatype Status = Idle | InFlight | Done
  datatype Op = NoOp | Bind | Call | Lmb

  /** A guest's client struct: is `done` set, and the broker's private words. */
  datatype Client = Client(hasDone: bool, status: Status, op: Op, result: int, server: u32, buf: u32, cbuf: u32)

  /** `serials[i]` numbers the submission that holds slot i; `fired` lists the submissions whose
      done() was called. */
  datatype Broker = Broker(active: bool, addrs: seq<u32>, slots: seq<u32>, clients: map<u32, Client>,
                           pending: seq<u32>, pendingCount: nat, loadfileBound: bool, lmbInFlight: bool,
                               lmbStaging: u32,
                           heap: Heap, issued: nat, serials: seq<nat>, fired: seq<nat>)

  predicate Shape(s: Broker) {
    && |s.addrs| == MAX_IOP_ALLOCS && |s.slots| == PKT_COUNT && |s.pending| == PENDING_FREE_MAX
        && |s.serials| == PKT_COUNT
    && 0 !in s.clients
  }

  /** The first index from `from` on that holds `x`, or -1. */
  function Find(xs: seq<u32>, x: u32, from: nat): (i: int)
    requires from <= |xs|
    ensures -1 <= i < |xs| && (i >= 0 ==> from <= i && xs[i] == x)
    ensures i < 0 ==> forall k | from <= k < |xs| :: xs[k] != x
    decreases |xs| - from
  {
    if from == |xs| then -1 else if xs[from] == x then from else Find(xs, x, from + 1)
  }

  function Blank(n: nat): (xs: seq<u32>)
    ensures |xs| == n && forall k | 0 <= k < n :: xs[k] == 0
  {
    seq(n, _ => 0)
  }

  function Zeroed(xs: seq<u32>, n: nat): (r: seq<u32>)
    requires n <= |xs|
    ensures |r| == |xs| && forall k | 0 <= k < |xs| :: r[k] == if k < n then 0 else xs[k]
  {
    Blank(n) + xs[n..]
  }

  // ---------------------------------------------------------------- the deferred-free queue

  function Push(s: Broker, addr: u32): (r: Broker)
    requires Shape(s)
    ensures Shape(r)
  {
    s.(pending := if s.pendingCount < PENDING_FREE_MAX then s.pending[s.pendingCount := addr] else s.pending,
       pendingCount := s.pendingCount + 1)
  }

  function Drained(s: Broker): nat {
    if s.pendingCount > PENDING_FREE_MAX then PENDING_FREE_MAX else s.pendingCount
  }

  function Drain(s: Broker, refuses: set<u32>): (r: Broker)
    requires Shape(s)
    ensures Shape(r)
  {
    s.(heap := FreeAll(s.heap, s.pending[..Drained(s)], refuses), pending := Zeroed(s.pending, Drained(s)),
        pendingCount := 0)
  }

  // ---------------------------------------------------------------- the session

  function Reset(s: Broker): (r: Broker)
    requires Shape(s)
    ensures Shape(r)
  {
    s.(addrs := Blank(MAX_IOP_ALLOCS), slots := Blank(PKT_COUNT), loadfileBound := false, lmbInFlight := false,
        lmbStaging := 0)
  }

  function Open(s: Broker): (r: Broker)
    requires Shape(s)
    ensures Shape(r)
  {
    Reset(s).(active := true)
  }

  function Close(s: Broker, refuses: set<u32>): (r: Broker)
    requires Shape(s)
    ensures Shape(r)
  {
    if !s.active then s
    else
      var d := Drain(s, refuses);
      Reset(d.(heap := FreeAll(d.heap, d.addrs, refuses))).(active := false)
  }

  // ---------------------------------------------------------------- synchronous operations

  predicate Unaligned(a: u32, len: u32) {
    a % 16 != 0 || len % 16 != 0
  }

  /** `iop_write` and `iop_read`; `ok` is how the transfer itself went. */
  function Transfer(s: Broker, ee: u32, iop: u32, len: u32, ok: bool, refuses: set<u32>): (r: (Broker, int))
    requires Shape(s)
    ensures Shape(r.0)
  {
    if !s.active then (s, ENOSESSION)
    else if ee == 0 || len == 0 || len > MAX_IOP_XFER then (s, EBADARG)
    else if Unaligned(ee, len) || Unaligned(iop, len) then (s, EALIGN)
    else (Drain(s, refuses), if ok then OK else EBADARG)
  }

  /** `grant` is the block the IOP hands out, 0 for none. */
  function IopAlloc(s: Broker, len: u32, out: u32, grant: u32, refuses: set<u32>): (r: (Broker, int))
    requires Shape(s)
    ensures Shape(r.0)
  {
    if !s.active then (s, ENOSESSION)
    else if out == 0 || len == 0 then (s, EBADARG)
    else
      var d := Drain(s, refuses);
      if grant == 0 then (d, ENOMEM)
      else
        var slot := Find(d.addrs, 0, 0);
        var taken := TakeBlock(d.heap, grant);
        if slot < 0 then (d.(heap := FreeBlock(taken, grant, refuses)), ENOMEM)
        else (d.(heap := taken, addrs := d.addrs[slot := grant]), OK)
  }

  function IopFree(s: Broker, addr: u32, refuses: set<u32>): (r: (Broker, int))
    requires Shape(s)
    ensures Shape(r.0)
  {
    if !s.active then (s, ENOSESSION)
    else if addr == 0 then (s, EBADARG)
    else
      var slot := Find(s.addrs, addr, 0);
      if slot < 0 then (s, EBADARG)
      else
        var d := Drain(s, refuses);
        var f := d.(heap := FreeBlock(d.heap, addr, refuses));
        if addr in refuses then (f, EBADARG) else (f.(addrs := f.addrs[slot := 0]), OK)
  }

  // ---------------------------------------------------------------- submitting

  function ClientIn(clients: map<u32, Client>, c: u32): Client {
    if c in clients then clients[c] else Client(false, Idle, NoOp, 0, 0, 0, 0)
  }

  function ClientOf(s: Broker, c: u32): Client {
    ClientIn(s.clients, c)
  }

  predicate NoSuchClient(s: Broker, c: u32) {
    c == 0 || !ClientOf(s, c).hasDone
  }

  /** The client and its slot as they stand while the packet is being sent. */
  function Submit(s: Broker, slot: nat, c: u32, op: Op): (r: Broker)
    requires Shape(s) && slot < PKT_COUNT && c != 0
    ensures Shape(r)
  {
    s.(slots := s.slots[slot := c],
        clients := s.clients[c := ClientOf(s, c).(status := InFlight, op := op, result := ETIMEOUT)])
  }

  function Withdraw(s: Broker, slot: nat, c: u32): (r: Broker)
    requires Shape(s) && slot < PKT_COUNT && c != 0
    ensures Shape(r)
  {
    s.(slots := s.slots[slot := 0], clients := s.clients[c := ClientOf(s, c).(status := Idle)])
  }

  /** History: the submission in `slot` was accepted. */
  function Accept(s: Broker, slot: nat): (r: Broker)
    requires Shape(s) && slot < PKT_COUNT
    ensures Shape(r)
  {
    s.(issued := s.issued + 1, serials := s.serials[slot := s.issued])
  }

  function SendFor(s: Broker, slot: nat, c: u32, op: Op, sent: bool): (r: (Broker, int))
    requires Shape(s) && slot < PKT_COUNT && c != 0
    ensures Shape(r.0)
  {
    var p := Submit(s, slot, c, op);
    if sent then (Accept(p, slot), EINFLIGHT) else (Withdraw(p, slot, c), EBADARG)
  }

  function RpcBind(s: Broker, c: u32, sent: bool, refuses: set<u32>): (r: (Broker, int))
    requires Shape(s)
    ensures Shape(r.0)
  {
    if !s.active then (s, ENOSESSION)
    else if NoSuchClient(s, c) then (s, EBADARG)
    else if ClientOf(s, c).status == InFlight then (s, EBUSY)
    else
      var d := Drain(s, refuses);
      var slot := Find(d.slots, 0, 0);
      if slot < 0 then (d, EBADARG) else SendFor(d, slot, c, Bind, sent)
  }

  /** A send or receive buffer of `rpc_call`. */
  datatype Buffer = Buffer(at: u32, len: u32)

  function CheckBuffers(send: Buffer, recv: Buffer): (rc: int)
    ensures rc in {OK, EBADARG, EALIGN}
  {
    if send.len > MAX_RPC_XFER || recv.len > MAX_RPC_XFER then EBADARG
    else if send.len != 0 && send.at == 0 then EBADARG
    else if recv.len != 0 && recv.at == 0 then EBADARG
    else if send.len != 0 && Unaligned(send.at, send.len) then EALIGN
    else if recv.len != 0 && Unaligned(recv.at, recv.len) then EALIGN
    else OK
  }

  function RpcCall(s: Broker, c: u32, send: Buffer, recv: Buffer, sent: bool, refuses: set<u32>): (r: (Broker, int))
    requires Shape(s)
    ensures Shape(r.0)
  {
    if !s.active then (s, ENOSESSION)
    else if NoSuchClient(s, c) then (s, EBADARG)
    else if ClientOf(s, c).status == InFlight then (s, EBUSY)
    else if ClientOf(s, c).server == 0 || ClientOf(s, c).buf == 0 then (s, EBADARG)
    else if CheckBuffers(send, recv) != OK then (s, CheckBuffers(send, recv))
    else
      var d := Drain(s, refuses);
      var slot := Find(d.slots, 0, 0);
      if slot < 0 then (d, EBADARG) else SendFor(d, slot, c, Call, sent)
  }

  /** What the rest of the system answers while a module load is being submitted: whether
      LOADFILE binds, which block is granted, whether staging and sending succeed. */
  datatype LoadReplies = LoadReplies(bound: bool, grant: u32, written: bool, sent: bool)

  /** The checks both module loads share, up to and including the LOADFILE bind. */
  function PrepareLoad(s: Broker, c: u32, env: LoadReplies, refuses: set<u32>): (r: (Broker, int))
    requires Shape(s)
    ensures Shape(r.0)
  {
    if ClientOf(s, c).status == InFlight then (s, EBUSY)
    else if s.lmbInFlight then (s, EBUSY)
    else
      var d := Drain(s, refuses);
      if !d.loadfileBound && !env.bound then (d, EBADARG) else (d.(loadfileBound := true), OK)
  }

  /** The image is in IOP memory: raise the flag and send; a failed send queues the block. */
  function SendImage(s: Broker, slot: nat, c: u32, staging: u32, sent: bool): (r: (Broker, int))
    requires Shape(s) && slot < PKT_COUNT && c != 0
    ensures Shape(r.0)
  {
    var (r, rc) := SendFor(s.(lmbInFlight := true, lmbStaging := staging), slot, c, Lmb, sent);
    if rc == EINFLIGHT then (r, rc) else (Push(r.(lmbInFlight := false), staging), rc)
  }

  function LoadModuleBuffer(s: Broker, c: u32, irx: u32, irxLen: u32, args: u32, argsLen: u32, env: LoadReplies,
      refuses: set<u32>): (r: (Broker, int))
    requires Shape(s)
    ensures Shape(r.0)
  {
    if !s.active then (s, ENOSESSION)
    else if NoSuchClient(s, c) then (s, EBADARG)
    else if irx == 0 || irxLen == 0 || argsLen > MAX_MODULE_ARGS || (argsLen != 0 && args == 0) then (s, EBADARG)
    else
      var (d, rc) := PrepareLoad(s, c, env, refuses);
      if rc != OK then (d, rc)
      else if env.grant == 0 then (d, ENOMEM)
      else
        var t := d.(heap := TakeBlock(d.heap, env.grant));
        if !env.written then (t.(heap := FreeBlock(t.heap, env.grant, refuses)), EBADARG)
        else
          var slot := Find(t.slots, 0, 0);
          if slot < 0 then (t.(heap := FreeBlock(t.heap, env.grant, refuses)), EBADARG)
          else
            SendImage(t, slot, c, env.grant, env.sent)
  }

  predicate Rom0Path(path: string) {
    "rom0:" <= path && |path| < 252
  }

  /** `path` is the string up to its NUL, None for a null pointer. */
  function LoadModulePath(s: Broker, c: u32, noPath: bool, path: string, args: u32, argsLen: u32, env: LoadReplies,
      refuses: set<u32>): (r: (Broker, int))
    requires Shape(s)
    ensures Shape(r.0)
  {
    if !s.active then (s, ENOSESSION)
    else if NoSuchClient(s, c) then (s, EBADARG)
    else if noPath || argsLen > MAX_MODULE_ARGS || (argsLen != 0 && args == 0) || !Rom0Path(path) then (s, EBADARG)
    else
      var (d, rc) := PrepareLoad(s, c, env, refuses);
      if rc != OK then (d, rc)
      else
        var slot := Find(d.slots, 0, 0);
        if slot < 0 then (d, EBADARG)
        else
          var (r, rc) := SendFor(d.(lmbInFlight := true, lmbStaging := 0), slot, c, Lmb, env.sent);
          if rc == EINFLIGHT then (r, rc) else (r.(lmbInFlight := false), rc)
  }

  // ---------------------------------------------------------------- completing

  /** The fields of an RPC_END packet, and LOADFILE's result word. */
  datatype Reply = Reply(cd: u32, sd: u32, buf: u32, cbuf: u32, loaded: i32)

  function Completed(c: Client, r: Reply): Client {
    match c.op
    case Bind => c.(server := r.sd, buf := r.buf, cbuf := r.cbuf, result := if r.sd != 0 then OK
        else ENOSRV, status := Done)
    case Call => c.(result := OK, status := Done)
    case Lmb => c.(result := if r.loaded >= 0 then r.loaded else EBADARG, status := Done)
    case NoOp => c.(result := EBADARG, status := Done)
  }

  /** The module-load part of a completion: hand the staging block to the deferred-free queue. */
  function LoadFinished(s: Broker): (r: Broker)
    requires Shape(s)
    ensures Shape(r)
  {
    (if s.lmbStaging != 0 then Push(s, s.lmbStaging).(lmbStaging := 0) else s).(lmbInFlight := false)
  }

  function Complete(s: Broker, c: u32, slot: nat, r: Reply): (t: Broker)
    requires Shape(s) && slot < PKT_COUNT && c in s.clients
    ensures Shape(t)
  {
    var client := s.clients[c];
    var l := if client.op == Lmb then LoadFinished(s) else s;
    l.(clients := l.clients[c := Completed(client, r)], fired := if client.hasDone then l.fired + [l.serials[slot]]
        else l.fired)
  }

  /** The interrupt handler on an RPC_END packet. */
  function OnReply(s: Broker, r: Reply): (t: Broker)
    requires Shape(s)
    ensures Shape(t)
  {
    var slot := Find(s.slots, r.cd, 0);
    if slot < 0 then s
    else
      var c := s.slots[slot];
      var e := s.(slots := s.slots[slot := 0]);
      if c == 0 || c !in e.clients then e else Complete(e, c, slot, r)
  }

  /** A guest sets up a client struct: `done` and all-zero private words. */
  function GuestInit(s: Broker, c: u32, hasDone: bool): (t: Broker)
    requires Shape(s) && c != 0
    ensures Shape(t)
  {
    s.(clients := s.clients[c := Client(hasDone, Idle, NoOp, 0, 0, 0, 0)])
  }
}
