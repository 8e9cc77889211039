/** The EE front end of the SMAP driver in place: the static queues of `iop_smap.c`. */
module SmapClient {
  import opened Bytes
  import opened SmapModel

  class SmapClient {
    const slotCount: nat
    const slotSize: nat
    var next: nat
    const submits: array<Entry>
    var submitCount: nat
    const claimed: array<bool>
    const txSeq: array<u32>
    var iop: Iop               // the other processor and its shared memory
    var frames: seq<Frame>     // history: every frame staged

    function State(): Smap
      requires submitCount <= submits.Length
      reads this, submits, claimed, txSeq
    {
      Smap(slotCount, slotSize, next, submits[..submitCount], claimed[..], txSeq[..], iop, frames)
    }

    ghost predicate Valid()
      reads this, submits, claimed, txSeq
    {
      submits.Length == SUBMIT_BATCH_MAX && submitCount <= submits.Length && Shape(State())
    }

    /** `ps2_smap_init`, once GET_LAYOUT has told the ring's size. */
    constructor (slotCount: nat, slotSize: nat, iop: Iop)
      requires slotCount <= TX_SLOTS && IopShape(iop)
      ensures Valid() && fresh(submits) && fresh(claimed) && fresh(txSeq)
      ensures State() == Smap(slotCount, slotSize, 0, [], Unclaimed(), seq(TX_SLOTS, _ => 0), iop, [])
    {
      this.slotCount, this.slotSize, this.iop := slotCount, slotSize, iop;
      next, submitCount, frames := 0, 0, [];
      submits := new Entry[SUBMIT_BATCH_MAX](_ => Entry(0, 0, 0, 0));
      claimed := new bool[TX_SLOTS](_ => false);
      txSeq := new u32[TX_SLOTS](_ => 0);
      new;
      assert claimed[..] == Unclaimed() && txSeq[..] == seq(TX_SLOTS, _ => 0);
    }

    // -------------------------------------------------------------- the RPC handler on the IOP

    /** `PS2_SMAP_FNO_SUBMIT_TX`. */
    method HandleSubmit(e: Entry) returns (rc: int)
      requires IopShape(iop)
      modifies this`iop
      ensures IopShape(iop) && (iop, rc) == SubmitSingle(old(iop), e)
    {
      if e.slot >= TX_SLOTS {
        return RC_BAD_SLOT;
      }
      if e.len < FRAME_MIN || e.len > FRAME_MAX {
        return RC_BAD_LEN;
      }
      if e.txSeq != iop.txSeq[e.slot] {
        return RC_BAD_SEQ;
      }
      if iop.busy[e.slot] {
        return RC_BAD_STATE;
      }
      Commit(e);
      rc := RC_OK;
    }

    /** Length, number and state of one slot. */
    method Commit(e: Entry)
      requires IopShape(iop) && e.slot < TX_SLOTS
      modifies this`iop
      ensures IopShape(iop) && iop == Accept(old(iop), e)
    {
      iop := iop.(lens := iop.lens[e.slot := e.len]);
      iop := iop.(txSeq := iop.txSeq[e.slot := Bumped(iop.txSeq[e.slot])]);
      iop := iop.(busy := iop.busy[e.slot := true]);
      iop := iop.(holder := iop.holder[e.slot := e.id], accepted := iop.accepted + [e.id]);
    }

    /** The first pass of the batch handler: the code of the first bad entry. */
    method Validate(es: seq<Entry>) returns (rc: int)
      requires IopShape(iop)
      ensures rc == FirstBad(iop, es)
    {
      var i := 0;
      assert es[0..] == es;
      while i < |es|
        invariant 0 <= i <= |es| && FirstBad(iop, es) == FirstBad(iop, es[i..])
      {
        var e := es[i];
        assert es[i..][0] == e && es[i..][1..] == es[i + 1..];
        if e.slot >= TX_SLOTS {
          return RC_BAD_SLOT;
        }
        if e.len < FRAME_MIN || e.len > FRAME_MAX {
          return RC_BAD_LEN;
        }
        if e.txSeq != iop.txSeq[e.slot] {
          return RC_BAD_SEQ;
        }
        if iop.busy[e.slot] {
          return RC_BAD_STATE;
        }
        i := i + 1;
      }
      rc := RC_OK;
    }

    /** `PS2_SMAP_FNO_SUBMIT_TX_BATCH`: all or nothing. */
    method HandleSubmitBatch(es: seq<Entry>) returns (rc: int)
      requires IopShape(iop)
      modifies this`iop
      ensures IopShape(iop) && (iop, rc) == SubmitBatch(old(iop), es)
    {
      if |es| == 0 || |es| > SUBMIT_BATCH_MAX {
        return RC_BAD_LEN;
      }
      rc := Validate(es);
      if rc != RC_OK {
        return;
      }
      ghost var was := iop;
      assert es[0..] == es;
      for i := 0 to |es|
        invariant IopShape(iop) && AcceptAll(was, es) == AcceptAll(iop, es[i..])
      {
        assert Check(was, es[i]) == RC_OK;
        assert es[i..][0] == es[i] && es[i..][1..] == es[i + 1..];
        Commit(es[i]);
      }
    }

    // -------------------------------------------------------------- RPCs

    /** What the pump on the IOP gets done before a call arrives. */
    method PumpRuns(turns: seq<Turn>)
      requires IopShape(iop)
      modifies this`iop
      ensures IopShape(iop) && iop == PumpAll(old(iop), turns)
    {
      assert turns[0..] == turns;
      for i := 0 to |turns|
        invariant IopShape(iop) && PumpAll(old(iop), turns) == PumpAll(iop, turns[i..])
      {
        assert turns[i..][0] == turns[i] && turns[i..][1..] == turns[i + 1..];
        iop := Pump(iop, turns[i]);
      }
    }

    /** One entry on its own: 0 or the IOP's code, and -5 when the call itself fails, whether or
        not the IOP ran it. */
    method SubmitTxSingle(e: Entry, w: Weather) returns (rc: int)
      requires IopShape(iop)
      modifies this`iop
      ensures IopShape(iop) && (iop, rc) == CallSingle(old(iop), e, w)
      ensures rc == 0 ==> w.fate.Answered? && e.slot < TX_SLOTS && iop == Accept(PumpAll(old(iop), w.before), e)
      ensures rc != 0 && w.fate.Answered? ==> iop == PumpAll(old(iop), w.before)
    {
      hide PumpAll;
      PumpRuns(w.before);
      if w.fate.RequestLost? {
        return -5;
      }
      var response := HandleSubmit(e);
      if w.fate.ReplyLost? {
        return -5;
      }
      if response != RC_OK {
        return response;
      }
      rc := 0;
    }

    /** The batch call of a flush; -5 stands for a failed call. */
    method SubmitTxBatch(es: seq<Entry>, w: Weather) returns (rc: int)
      requires IopShape(iop)
      modifies this`iop
      ensures IopShape(iop) && (iop, rc) == CallBatch(old(iop), es, w)
    {
      hide PumpAll;
      PumpRuns(w.before);
      if w.fate.RequestLost? {
        return -5;
      }
      rc := HandleSubmitBatch(es);
      if w.fate.ReplyLost? {
        rc := -5;
      }
    }

    // -------------------------------------------------------------- flushing

    method ReleaseClaims()
      requires claimed.Length == TX_SLOTS && submitCount <= submits.Length
      modifies this`submitCount, claimed
      ensures claimed[..] == Unclaimed() && submitCount == 0
    {
      for i := 0 to TX_SLOTS
        invariant forall k | 0 <= k < i :: !claimed[k]
      {
        claimed[i] := false;
      }
      submitCount := 0;
    }

    /** The fallback loop: each entry on its own, remembering the first failure. */
    method Resubmit(ws: seq<Weather>) returns (rc: int)
      requires Valid()
      modifies this`iop
      ensures Valid() && (iop, rc) == Singles(old(iop), submits[..submitCount], ws, 1)
    {
      rc := 0;
      hide CallSingle;
      ghost var es := submits[..submitCount];
      for i := 0 to submitCount
        invariant IopShape(iop)
        invariant Singles(old(iop), es, ws, 1).0 == Singles(iop, es[i..], ws, i + 1).0
        invariant Singles(old(iop), es, ws, 1).1 == if rc < 0 then rc else Singles(iop, es[i..], ws, i + 1).1
      {
        assert es[i..][0] == es[i] && es[i..][1..] == es[i + 1..];
        var one := SubmitTxSingle(submits[i], Forecast(ws, i + 1));
        if one < 0 && rc == 0 {
          rc := one;
        }
      }
    }

    method FlushTx(ws: seq<Weather>) returns (rc: int)
      requires Valid()
      modifies this`iop, this`submitCount, claimed
      ensures Valid() && (State(), rc) == Flush(old(State()), ws)
    {
      hide CallBatch, Singles;
      if submitCount == 0 {
        return 0;
      }
      var batch := SubmitTxBatch(submits[..submitCount], Forecast(ws, 0));
      if batch == RC_OK {
        ReleaseClaims();
        return 0;
      }
      rc := Resubmit(ws);
      ReleaseClaims();
    }

    // -------------------------------------------------------------- sending

    method TxScanFreeSlot() returns (slot: nat)
      requires Valid()
      ensures slot == ScanFree(State())
    {
      slot := next;
      var scanned := 0;
      while scanned < slotCount
        invariant 0 <= scanned <= slotCount && (slot < slotCount || slot == 0)
        invariant ScanFree(State()) == Scan(claimed[..], iop.busy, slotCount, slot, slotCount - scanned)
      {
        if !claimed[slot] && !iop.busy[slot] {
          return;
        }
        slot := slot + 1;
        if slot >= slotCount {
          slot := 0;
        }
        scanned := scanned + 1;
      }
      slot := slotCount;
    }

    /** The bounded wait for the pump; each burst is what the pump does between two scans. */
    method WaitForSlot(bursts: seq<seq<Turn>>) returns (slot: nat)
      requires Valid()
      modifies this`iop
      ensures Valid() && (State(), slot) == Wait(old(State()), bursts)
    {
      slot := TxScanFreeSlot();
      var i := 0;
      assert bursts[0..] == bursts;
      while slot >= slotCount && i < |bursts|
        invariant 0 <= i <= |bursts| && Valid() && slot == ScanFree(State())
        invariant Wait(old(State()), bursts) == Wait(State(), bursts[i..])
      {
        assert bursts[i..][0] == bursts[i] && bursts[i..][1..] == bursts[i + 1..];
        iop := PumpAll(iop, bursts[i]);
        slot := TxScanFreeSlot();
        i := i + 1;
      }
    }

    method WriteSlot(slot: nat, bytes: Frame)
      requires Valid() && slot < TX_SLOTS
      modifies this`iop
      ensures Valid() && State() == Stored(old(State()), slot, bytes)
    {
      iop := iop.(data := iop.data[slot := bytes]);
    }

    method StageEntry(slot: nat, frame: Frame)
      requires Valid() && slot < slotCount && submitCount < SUBMIT_BATCH_MAX
      modifies this`submitCount, this`frames, submits, claimed, txSeq
      ensures Valid() && State() == Stage(old(State()), slot, frame)
    {
      var expected := txSeq[slot];
      submits[submitCount] := Entry(slot, |frame|, expected, |frames|);
      submitCount := submitCount + 1;
      claimed[slot] := true;
      txSeq[slot] := Bumped(expected);
      frames := frames + [frame];
    }

    method FinishSend(slot: nat, frame: Frame, env: Env) returns (rc: int)
      requires Valid() && slot < slotCount && submitCount < SUBMIT_BATCH_MAX
      modifies this, submits, claimed, txSeq
      ensures Valid() && (State(), rc) == SendInto(old(State()), slot, frame, env)
    {
      hide Stored, Stage, Flush;
      next := slot + 1;
      if next >= slotCount {
        next := 0;
      }
      if !env.written {
        WriteSlot(slot, env.padding);
        return -4;
      }
      WriteSlot(slot, frame + env.padding);
      StageEntry(slot, frame);
      if submitCount >= SUBMIT_BATCH_MAX {
        var _ := FlushTx(env.last);
      }
      rc := 0;
    }

    /** From the search for a slot on. */
    method PlaceFrame(frame: Frame, env: Env) returns (rc: int)
      requires Valid() && submitCount < SUBMIT_BATCH_MAX
      modifies this, submits, claimed, txSeq
      ensures Valid() && (State(), rc) == Place(old(State()), frame, env)
    {
      hide ScanFree, Wait, Flush, SendInto;
      var slot := TxScanFreeSlot();
      if slot >= slotCount {
        NoFlushNeeded(State(), env.full);
        if submitCount > 0 {
          var _ := FlushTx(env.full);
        }
        slot := WaitForSlot(env.bursts);
        if slot >= slotCount {
          return -3;
        }
      }
      rc := FinishSend(slot, frame, env);
    }

    method SendFrame(frame: Frame, env: Env) returns (rc: int)
      requires Valid()
      modifies this, submits, claimed, txSeq
      ensures Valid() && (State(), rc) == Send(old(State()), frame, env)
    {
      hide Place, Flush;
      if |frame| < FRAME_MIN || |frame| > FRAME_MAX {
        return -2;
      }
      if |frame| > slotSize {
        return -2;
      }
      if submitCount >= SUBMIT_BATCH_MAX {
        var flushed := FlushTx(env.first);
        if flushed < 0 {
          return -6;
        }
      }
      rc := PlaceFrame(frame, env);
    }
  }

  lemma NoFlushNeeded(s: Smap, ws: seq<Weather>)
    requires Shape(s)
    ensures s.pending == [] ==> Flush(s, ws).0 == s
  {
  }
}
