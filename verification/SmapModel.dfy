/**
 The transmit path of the SMAP network driver: the EE front end of `iop_smap.c`, the RPC
 handler and pump of `smap_irx.c`, and RPCs that may lose the request or the reply.
 */
module SmapModel {
  import opened Bytes

  const TX_SLOTS := 16
  const SUBMIT_BATCH_MAX := 8
  const FRAME_MIN := 14
  const FRAME_MAX := 1518
  const WIRE_MAX := 1514

  const RC_OK := 0
  const RC_BAD_SLOT := -2
  const RC_BAD_LEN := -3
  const RC_BAD_SEQ := -4
  const RC_BAD_STATE := -5

  type Frame = seq<u8>

  /** A staged submission; `id` numbers the staged frames of the run. */
  datatype Entry = Entry(slot: nat, len: nat, txSeq: u32, id: nat)

  /** IOP memory and the driver's counters. `holder[i]` is the frame a BUSY slot was accepted
      for, `accepted` all accepted frames, `wire` what went out and for which frame. */
  datatype Iop = Iop(txSeq: seq<u32>, busy: seq<bool>, lens: seq<nat>, data: seq<Frame>,
                     holder: seq<nat>, accepted: seq<nat>, wire: seq<(nat, Frame)>)

  /** `frames` are the frames staged so far, by number. */
  datatype Smap = Smap(slotCount: nat, slotSize: nat, next: nat, pending: seq<Entry>, claimed: seq<bool>,
      txSeq: seq<u32>,
                       iop: Iop, frames: seq<Frame>)

  predicate IopShape(i: Iop) {
    |i.txSeq| == |i.busy| == |i.lens| == |i.data| == |i.holder| == TX_SLOTS
  }

  predicate Shape(s: Smap) {
    && s.slotCount <= TX_SLOTS && (s.next < s.slotCount || s.next == 0)
    && |s.claimed| == |s.txSeq| == TX_SLOTS && |s.pending| <= SUBMIT_BATCH_MAX
    && IopShape(s.iop)
  }

  function Bumped(q: u32): u32 {
    Wrap32((q as int) + 1)
  }

  // ---------------------------------------------------------------- the IOP

  /** The checks both submit functions make of one entry. */
  function Check(i: Iop, e: Entry): (rc: int)
    requires IopShape(i)
  {
    if e.slot >= TX_SLOTS then RC_BAD_SLOT
    else if e.len < FRAME_MIN || e.len > FRAME_MAX then RC_BAD_LEN
    else if e.txSeq != i.txSeq[e.slot] then RC_BAD_SEQ
    else if i.busy[e.slot] then RC_BAD_STATE
    else RC_OK
  }

  function Accept(i: Iop, e: Entry): (r: Iop)
    requires IopShape(i)
    ensures IopShape(r)
  {
    if e.slot >= TX_SLOTS then i
    else i.(lens := i.lens[e.slot := e.len], txSeq := i.txSeq[e.slot := Bumped(i.txSeq[e.slot])],
        busy := i.busy[e.slot := true],
            holder := i.holder[e.slot := e.id], accepted := i.accepted + [e.id])
  }

  function SubmitSingle(i: Iop, e: Entry): (Iop, int)
    requires IopShape(i)
  {
    if Check(i, e) == RC_OK then (Accept(i, e), RC_OK) else (i, Check(i, e))
  }

  function FirstBad(i: Iop, es: seq<Entry>): (rc: int)
    requires IopShape(i)
    ensures rc == RC_OK <==> forall k | 0 <= k < |es| :: Check(i, es[k]) == RC_OK
    decreases |es|
  {
    if es == [] then RC_OK else if Check(i, es[0]) != RC_OK then Check(i, es[0]) else FirstBad(i, es[1..])
  }

  function AcceptAll(i: Iop, es: seq<Entry>): (r: Iop)
    requires IopShape(i)
    ensures IopShape(r)
    decreases |es|
  {
    if es == [] then i else AcceptAll(Accept(i, es[0]), es[1..])
  }

  function SubmitBatch(i: Iop, es: seq<Entry>): (Iop, int)
    requires IopShape(i)
  {
    if es == [] || |es| > SUBMIT_BATCH_MAX then (i, RC_BAD_LEN)
    else if FirstBad(i, es) != RC_OK then (i, FirstBad(i, es))
    else (AcceptAll(i, es), RC_OK)
  }

  /** One slot's turn in the frame pump: it goes out, or it is dropped after a stall. */
  datatype Turn = Turn(slot: nat, stalled: bool)

  function Pump(i: Iop, t: Turn): (r: Iop)
    requires IopShape(i)
    ensures IopShape(r)
  {
    if t.slot >= TX_SLOTS || !i.busy[t.slot] then i
    else
      var n, idle := i.lens[t.slot], i.(busy := i.busy[t.slot := false]);
      if t.stalled || !(FRAME_MIN <= n <= WIRE_MAX) || n > |i.data[t.slot]| then idle
      else idle.(wire := i.wire + [(i.holder[t.slot], i.data[t.slot][..n])])
  }

  function PumpAll(i: Iop, ts: seq<Turn>): (r: Iop)
    requires IopShape(i)
    ensures IopShape(r)
    decreases |ts|
  {
    if ts == [] then i else PumpAll(Pump(i, ts[0]), ts[1..])
  }

  // ---------------------------------------------------------------- RPCs

  /** What becomes of a call: the request is lost, only the reply is lost, or neither. */
  datatype Fate = RequestLost | ReplyLost | Answered

  /** One call: turns of the pump before it runs, and its fate. */
  datatype Weather = Weather(before: seq<Turn>, fate: Fate)

  /** The IOP after a submit call, and what the EE sees: the IOP's code, or -5 for a failed call. */
  function CallSingle(i: Iop, e: Entry, w: Weather): (Iop, int)
    requires IopShape(i)
  {
    var p := PumpAll(i, w.before);
    var (r, rc) := SubmitSingle(p, e);
    match w.fate
    case RequestLost => (p, -5)
    case ReplyLost => (r, -5)
    case Answered => (r, rc)
  }

  function CallBatch(i: Iop, es: seq<Entry>, w: Weather): (Iop, int)
    requires IopShape(i)
  {
    var p := PumpAll(i, w.before);
    var (r, rc) := SubmitBatch(p, es);
    match w.fate
    case RequestLost => (p, -5)
    case ReplyLost => (r, -5)
    case Answered => (r, rc)
  }

  // ---------------------------------------------------------------- the EE

  /** The weather of call number `k`, fair once the forecast runs out. */
  function Forecast(ws: seq<Weather>, k: nat): Weather {
    if k < |ws| then ws[k] else Weather([], Answered)
  }

  /** The fallback: submit the entries one by one; the first failure is reported. */
  function Singles(i: Iop, es: seq<Entry>, ws: seq<Weather>, k: nat): (r: (Iop, int))
    requires IopShape(i)
    ensures IopShape(r.0)
    decreases |es|
  {
    if es == [] then (i, 0)
    else
      var (n, rc) := CallSingle(i, es[0], Forecast(ws, k));
      var (r, later) := Singles(n, es[1..], ws, k + 1);
      (r, if rc < 0 then rc else later)
  }

  function Unclaimed(): (c: seq<bool>)
    ensures |c| == TX_SLOTS && forall i | 0 <= i < TX_SLOTS :: !c[i]
  {
    seq(TX_SLOTS, _ => false)
  }

  /** The submissions of a flush: the batch, and the singles if it did not come back as OK. */
  function Delivered(i: Iop, es: seq<Entry>, ws: seq<Weather>): (r: (Iop, int))
    requires IopShape(i)
    ensures IopShape(r.0)
  {
    var (n, rc) := CallBatch(i, es, Forecast(ws, 0));
    if rc == RC_OK then (n, 0) else Singles(n, es, ws, 1)
  }

  /** `ps2_smap_flush_tx`: whatever happens, the queue and the claims are empty afterwards. */
  function Flush(s: Smap, ws: seq<Weather>): (r: (Smap, int))
    requires Shape(s)
    ensures Shape(r.0) && r.0.pending == [] && r.0.slotCount == s.slotCount
  {
    if s.pending == [] then (s, 0)
    else
      var (n, rc) := Delivered(s.iop, s.pending, ws);
      (s.(iop := n, pending := [], claimed := Unclaimed()), rc)
  }

  function SlotAfter(slot: nat, count: nat): nat {
    if slot + 1 >= count then 0 else slot + 1
  }

  /** Round robin from `slot`, at most `left` slots: the first that is neither claimed nor BUSY,
      or the slot count. */
  function Scan(claimed: seq<bool>, busy: seq<bool>, count: nat, slot: nat, left: nat): (r: nat)
    requires |claimed| == |busy| == TX_SLOTS && count <= TX_SLOTS && (slot < count || slot == 0)
    ensures r <= count && (r < count ==> !claimed[r] && !busy[r])
    decreases left
  {
    if left == 0 || slot >= count then count
    else if !claimed[slot] && !busy[slot] then slot
    else Scan(claimed, busy, count, SlotAfter(slot, count), left - 1)
  }

  function ScanFree(s: Smap): (r: nat)
    requires Shape(s)
    ensures r <= s.slotCount && (r < s.slotCount ==> !s.claimed[r] && !s.iop.busy[r])
  {
    Scan(s.claimed, s.iop.busy, s.slotCount, s.next, s.slotCount)
  }

  /** The bounded wait: one scan after each of the pump's bursts until a slot turns up. */
  function Wait(s: Smap, bursts: seq<seq<Turn>>): (r: (Smap, nat))
    requires Shape(s)
    ensures Shape(r.0) && r.1 <= s.slotCount == r.0.slotCount && r.0.pending == s.pending
    ensures r.1 < s.slotCount ==> !r.0.claimed[r.1] && !r.0.iop.busy[r.1]
    decreases |bursts|
  {
    var slot := ScanFree(s);
    if slot < s.slotCount || bursts == [] then (s, slot)
    else Wait(s.(iop := PumpAll(s.iop, bursts[0])), bursts[1..])
  }

  /** The rest of the system during one send: the calls of each flush, the pump during the wait,
      the bytes the padded DMA leaves after the frame, and whether the DMA worked. */
  datatype Env = Env(first: seq<Weather>, full: seq<Weather>, last: seq<Weather>, bursts: seq<seq<Turn>>,
      padding: Frame, written: bool)

  /** Frame bytes are in the slot; `written` false leaves `padding` there instead. */
  function Stored(s: Smap, slot: nat, bytes: Frame): (r: Smap)
    requires Shape(s) && slot < TX_SLOTS
    ensures Shape(r)
  {
    s.(iop := s.iop.(data := s.iop.data[slot := bytes]))
  }

  function Stage(s: Smap, slot: nat, frame: Frame): (r: Smap)
    requires Shape(s) && slot < s.slotCount && |s.pending| < SUBMIT_BATCH_MAX
    ensures Shape(r)
  {
    s.(pending := s.pending + [Entry(slot, |frame|, s.txSeq[slot], |s.frames|)], claimed := s.claimed[slot := true],
       txSeq := s.txSeq[slot := Bumped(s.txSeq[slot])], frames := s.frames + [frame])
  }

  /** From a slot on: write the bytes, stage the entry, flush if the queue is full. */
  function SendInto(s: Smap, slot: nat, frame: Frame, env: Env): (r: (Smap, int))
    requires Shape(s) && slot < s.slotCount && |s.pending| < SUBMIT_BATCH_MAX
    ensures Shape(r.0)
  {
    var m := s.(next := SlotAfter(slot, s.slotCount));
    if !env.written then (Stored(m, slot, env.padding), -4)
    else
      var t := Stage(Stored(m, slot, frame + env.padding), slot, frame);
      (if |t.pending| >= SUBMIT_BATCH_MAX then Flush(t, env.last).0 else t, 0)
  }

  /** A send with room in the queue: find a slot, flushing and waiting if there is none. */
  function Place(s: Smap, frame: Frame, env: Env): (r: (Smap, int))
    requires Shape(s) && |s.pending| < SUBMIT_BATCH_MAX
    ensures Shape(r.0)
  {
    if ScanFree(s) < s.slotCount then SendInto(s, ScanFree(s), frame, env)
    else
      var f := Flush(s, env.full).0;
      var (w, slot) := Wait(f, env.bursts);
      if slot >= w.slotCount then (w, -3) else SendInto(w, slot, frame, env)
  }

  predicate Sendable(s: Smap, frame: Frame) {
    FRAME_MIN <= |frame| <= FRAME_MAX && |frame| <= s.slotSize
  }

  /** `ps2_smap_send`. */
  function Send(s: Smap, frame: Frame, env: Env): (r: (Smap, int))
    requires Shape(s)
    ensures Shape(r.0)
  {
    if !Sendable(s, frame) then (s, -2)
    else if |s.pending| < SUBMIT_BATCH_MAX then Place(s, frame, env)
    else
      var (a, rc) := Flush(s, env.first);
      if rc < 0 then (a, -6) else Place(a, frame, env)
  }
}
