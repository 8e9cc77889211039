/** Runs of the SMAP transmit path over RPCs that may fail: what reaches the wire. */
module SmapRuns {
  import opened SmapModel

  // ---------------------------------------------------------------- invariants

  ghost predicate Unique<T>(xs: seq<T>) {
    forall i, j | 0 <= i < j < |xs| :: xs[i] != xs[j]
  }

  /** A BUSY slot holds, untouched, the frame it was accepted for. */
  ghost predicate Holds(i: Iop, frames: seq<Frame>, k: nat)
    requires IopShape(i) && k < TX_SLOTS
  {
    && i.holder[k] < |frames| && i.holder[k] in i.accepted
    && i.lens[k] == |frames[i.holder[k]]| && frames[i.holder[k]] <= i.data[k]
    && (forall w | 0 <= w < |i.wire| :: i.wire[w].0 != i.holder[k])
  }

  ghost predicate SlotsHold(i: Iop, frames: seq<Frame>)
    requires IopShape(i)
  {
    && (forall k | 0 <= k < TX_SLOTS && i.busy[k] :: Holds(i, frames, k))
    && (forall j, k | 0 <= j < k < TX_SLOTS && i.busy[j] && i.busy[k] :: i.holder[j] != i.holder[k])
  }

  /** The wire carries accepted frames, byte for byte, each at most once. */
  ghost predicate WireOk(i: Iop, frames: seq<Frame>) {
    && (forall w | 0 <= w < |i.wire| ::
        i.wire[w].0 < |frames| && i.wire[w].1 == frames[i.wire[w].0] && i.wire[w].0 in i.accepted)
    && (forall v, w | 0 <= v < w < |i.wire| :: i.wire[v].0 != i.wire[w].0)
  }

  ghost predicate IopOk(i: Iop, frames: seq<Frame>) {
    && IopShape(i) && SlotsHold(i, frames) && WireOk(i, frames)
    && Unique(i.accepted) && (forall a | a in i.accepted :: a < |frames|)
  }

  /** A staged entry: its slot is FREE and holds its frame, and the IOP has not accepted it. */
  ghost predicate Staged(i: Iop, frames: seq<Frame>, e: Entry) {
    && IopShape(i) && e.slot < TX_SLOTS && e.id < |frames|
    && e.len == |frames[e.id]| && frames[e.id] <= i.data[e.slot]
    && !i.busy[e.slot] && e.id !in i.accepted
  }

  ghost predicate Apart(es: seq<Entry>) {
    forall i, j | 0 <= i < j < |es| :: es[i].slot != es[j].slot && es[i].id != es[j].id
  }

  ghost predicate AllStaged(i: Iop, frames: seq<Frame>, es: seq<Entry>) {
    forall k | 0 <= k < |es| :: Staged(i, frames, es[k])
  }

  /** The claimed slots are exactly the staged ones, which are distinct. */
  ghost predicate ClaimsOk(s: Smap)
    requires Shape(s)
  {
    && (forall k | 0 <= k < |s.pending| :: s.pending[k].slot < s.slotCount && s.claimed[s.pending[k].slot])
    && (forall c | 0 <= c < TX_SLOTS && s.claimed[c] :: exists k :: 0 <= k < |s.pending| && s.pending[k].slot == c)
    && Apart(s.pending)
  }

  ghost predicate Inv(s: Smap) {
    && Shape(s) && IopOk(s.iop, s.frames) && ClaimsOk(s) && AllStaged(s.iop, s.frames, s.pending)
    && (forall k | 0 <= k < |s.pending| :: FRAME_MIN <= s.pending[k].len <= FRAME_MAX)
  }

  // ---------------------------------------------------------------- the pump

  lemma PumpKeeps(i: Iop, t: Turn, frames: seq<Frame>)
    requires IopOk(i, frames)
    ensures var p := Pump(i, t);
            && IopOk(p, frames) && p.accepted == i.accepted && p.data == i.data && p.txSeq == i.txSeq
            && forall k | 0 <= k < TX_SLOTS && p.busy[k] :: i.busy[k]
  {
    if t.slot < TX_SLOTS && i.busy[t.slot] {
      assert Holds(i, frames, t.slot);
      var p := Pump(i, t);
      assert i.data[t.slot][..i.lens[t.slot]] == frames[i.holder[t.slot]];
      forall k | 0 <= k < TX_SLOTS && p.busy[k]
        ensures Holds(p, frames, k)
      {
        assert Holds(i, frames, k);
      }
    }
  }

  /** A BUSY slot's turn frees the slot and no other. Its frame goes out, whole and as it was staged, exactly
      if the turn is not stalled and the frame fits the wire; otherwise nothing does. */
  lemma TurnSendsExactly(i: Iop, t: Turn, frames: seq<Frame>)
    requires IopOk(i, frames) && t.slot < TX_SLOTS && i.busy[t.slot]
    ensures i.holder[t.slot] < |frames|
    ensures var p, id := Pump(i, t), i.holder[t.slot];
            && p.busy == i.busy[t.slot := false]
            && p.wire == i.wire + (if !t.stalled && 14 <= |frames[id]| <= 1514 then [(id, frames[id])] else [])
  {
    assert Holds(i, frames, t.slot);
    assert i.data[t.slot][..i.lens[t.slot]] == frames[i.holder[t.slot]];
  }

  lemma {:induction false} PumpAllKeeps(i: Iop, ts: seq<Turn>, frames: seq<Frame>)
    requires IopOk(i, frames)
    ensures var p := PumpAll(i, ts);
            && IopOk(p, frames) && p.accepted == i.accepted && p.data == i.data && p.txSeq == i.txSeq
            && forall k | 0 <= k < TX_SLOTS && p.busy[k] :: i.busy[k]
    decreases |ts|
  {
    if ts != [] {
      PumpKeeps(i, ts[0], frames);
      PumpAllKeeps(Pump(i, ts[0]), ts[1..], frames);
    }
  }

  // ---------------------------------------------------------------- accepting

  /** The IOP's answers: which check fails first. */
  lemma CheckMeans(i: Iop, e: Entry)
    requires IopShape(i)
    ensures Check(i, e) == -2 <==> e.slot >= 16
    ensures Check(i, e) == -3 <==> e.slot < 16 && !(14 <= e.len <= 1518)
    ensures Check(i, e) == -4 <==> e.slot < 16 && 14 <= e.len <= 1518 && e.txSeq != i.txSeq[e.slot]
    ensures Check(i, e) == -5 <==> e.slot < 16 && 14 <= e.len <= 1518 && e.txSeq == i.txSeq[e.slot] && i.busy[e.slot]
    ensures Check(i, e) == 0
            <==> e.slot < 16 && 14 <= e.len <= 1518 && e.txSeq == i.txSeq[e.slot] && !i.busy[e.slot]
  {
  }

  /** How far ahead of `from` slot k lies, going round. */
  function Ahead(from: nat, k: nat, count: nat): int {
    if from <= k then k - from else k - from + count
  }

  lemma {:induction false} ScanFrom(claimed: seq<bool>, busy: seq<bool>, count: nat, slot: nat, left: nat, start: nat)
    requires |claimed| == |busy| == TX_SLOTS && slot < count <= TX_SLOTS && start < count && 0 < left <= count
    requires Ahead(start, slot, count) == count - left
    requires forall k | 0 <= k < count && Ahead(start, k, count) < count - left :: claimed[k] || busy[k]
    ensures var r := Scan(claimed, busy, count, slot, left);
            forall k | 0 <= k < count
                       && Ahead(start, k, count) < (if r < count then Ahead(start, r, count) else count) ::
              claimed[k] || busy[k]
    decreases left
  {
    if claimed[slot] || busy[slot] {
      if left > 1 {
        ScanFrom(claimed, busy, count, SlotAfter(slot, count), left - 1, start);
      }
    }
  }

  /** The scan finds the first slot from the cursor on, going round, that is neither claimed nor BUSY, and
      gives up only when there is none. */
  lemma ScanFindsTheFirst(s: Smap)
    requires Shape(s)
    ensures var r := ScanFree(s);
            && (forall k | 0 <= k < s.slotCount
                           && Ahead(s.next, k, s.slotCount)
                              < (if r < s.slotCount then Ahead(s.next, r, s.slotCount) else s.slotCount) ::
                  s.claimed[k] || s.iop.busy[k])
            && (r < s.slotCount ==> !s.claimed[r] && !s.iop.busy[r])
  {
    if s.slotCount > 0 {
      ScanFrom(s.claimed, s.iop.busy, s.slotCount, s.next, s.slotCount, s.next);
    }
  }

  lemma AcceptKeeps(i: Iop, frames: seq<Frame>, e: Entry)
    requires IopOk(i, frames) && Staged(i, frames, e)
    ensures var r := Accept(i, e);
            IopOk(r, frames) && r.accepted == i.accepted + [e.id] && r.data == i.data && r.wire == i.wire
  {
    var r := Accept(i, e);
    forall k | 0 <= k < TX_SLOTS && r.busy[k]
      ensures Holds(r, frames, k)
    {
      if k != e.slot {
        assert Holds(i, frames, k);
      }
    }
  }

  lemma AcceptLeavesOthers(i: Iop, frames: seq<Frame>, e: Entry, f: Entry)
    requires Staged(i, frames, e) && Staged(i, frames, f) && e.slot != f.slot && e.id != f.id
    ensures Staged(Accept(i, e), frames, f) && Check(Accept(i, e), f) == Check(i, f)
  {
  }

  function Ids(es: seq<Entry>): (ids: seq<nat>)
    ensures |ids| == |es| && forall k | 0 <= k < |es| :: ids[k] == es[k].id
  {
    seq(|es|, k requires 0 <= k < |es| => es[k].id)
  }

  lemma IdsTail(es: seq<Entry>)
    requires es != []
    ensures Ids(es) == [es[0].id] + Ids(es[1..])
  {
  }

  lemma RestStaged(i: Iop, frames: seq<Frame>, es: seq<Entry>)
    requires IopShape(i) && AllStaged(i, frames, es) && Apart(es) && es != []
    ensures Staged(i, frames, es[0]) && AllStaged(Accept(i, es[0]), frames, es[1..]) && Apart(es[1..])
  {
    hide Staged, Accept, Check;
    assert Staged(i, frames, es[0]);
    forall k | 0 <= k < |es[1..]|
      ensures Staged(Accept(i, es[0]), frames, es[1..][k])
    {
      assert Staged(i, frames, es[k + 1]);
      AcceptLeavesOthers(i, frames, es[0], es[k + 1]);
    }
  }

  lemma Regroup(a: seq<nat>, x: nat, rest: seq<nat>)
    ensures a + [x] + rest == a + ([x] + rest)
  {
  }

  lemma {:induction false} AcceptAllKeeps(i: Iop, frames: seq<Frame>, es: seq<Entry>)
    requires IopOk(i, frames) && AllStaged(i, frames, es) && Apart(es)
    ensures var r := AcceptAll(i, es); IopOk(r, frames) && r.accepted == i.accepted + Ids(es) && r.data == i.data
    decreases |es|
  {
    if es == [] {
      assert i.accepted + Ids(es) == i.accepted;
    } else {
      var n := Accept(i, es[0]);
      RestStaged(i, frames, es);
      AcceptKeeps(i, frames, es[0]);
      IdsTail(es);
      Regroup(i.accepted, es[0].id, Ids(es[1..]));
      hide IopOk, Staged, AllStaged, Apart, Accept, Ids;
      AcceptAllKeeps(n, frames, es[1..]);
      assert AcceptAll(i, es) == AcceptAll(n, es[1..]);
    }
  }

  /** The IOP has moved past this entry: it will refuse it for its sequence number. */
  predicate Spent(i: Iop, e: Entry) {
    IopShape(i) && e.slot < TX_SLOTS && i.txSeq[e.slot] != e.txSeq
  }

  lemma {:induction false} AcceptAllSpends(i: Iop, es: seq<Entry>, k: nat)
    requires IopShape(i) && Apart(es) && k < |es| && es[k].slot < TX_SLOTS && es[k].txSeq == i.txSeq[es[k].slot]
    ensures AcceptAll(i, es).txSeq[es[k].slot] == Bumped(es[k].txSeq) && Spent(AcceptAll(i, es), es[k])
    decreases |es|
  {
    var a := Accept(i, es[0]);
    if k == 0 {
      OthersKeepSeq(a, es[1..], es[0].slot);
    } else {
      AcceptAllSpends(a, es[1..], k - 1);
    }
  }

  lemma {:induction false} OthersKeepSeq(i: Iop, es: seq<Entry>, slot: nat)
    requires IopShape(i) && slot < TX_SLOTS && forall k | 0 <= k < |es| :: es[k].slot != slot
    ensures AcceptAll(i, es).txSeq[slot] == i.txSeq[slot]
    decreases |es|
  {
    if es != [] {
      OthersKeepSeq(Accept(i, es[0]), es[1..], slot);
    }
  }

  // ---------------------------------------------------------------- a flush

  /** What a flush may do to the IOP: accept some of the entries, none twice, and touch no bytes. */
  ghost predicate Took(i: Iop, r: Iop, frames: seq<Frame>, es: seq<Entry>) {
    && IopOk(r, frames) && IopShape(i) && r.data == i.data
    && i.accepted <= r.accepted
    && (forall a | a in r.accepted :: a in i.accepted || exists k :: 0 <= k < |es| && es[k].id == a)
  }

  lemma PumpKeepsStaged(i: Iop, ts: seq<Turn>, frames: seq<Frame>, es: seq<Entry>)
    requires IopOk(i, frames) && AllStaged(i, frames, es)
    ensures AllStaged(PumpAll(i, ts), frames, es)
  {
    hide IopOk, PumpAll;
    PumpAllKeeps(i, ts, frames);
    assert forall k | 0 <= k < |es| :: Staged(i, frames, es[k]);
  }

  lemma SingleKeeps(i: Iop, frames: seq<Frame>, e: Entry, w: Weather)
    requires IopOk(i, frames) && Staged(i, frames, e)
    ensures var r := CallSingle(i, e, w).0;
            IopOk(r, frames) && r.data == i.data && r.accepted in {i.accepted, i.accepted + [e.id]}
  {
    PumpAllKeeps(i, w.before, frames);
    PumpKeepsStaged(i, w.before, frames, [e]);
    assert [e][0] == e;
    AcceptKeeps(PumpAll(i, w.before), frames, e);
  }

  lemma SingleLeavesOthers(i: Iop, frames: seq<Frame>, e: Entry, w: Weather, f: Entry)
    requires IopOk(i, frames) && Staged(i, frames, e) && Staged(i, frames, f) && e.slot != f.slot && e.id != f.id
    ensures Staged(CallSingle(i, e, w).0, frames, f)
  {
    PumpKeepsStaged(i, w.before, frames, [e, f]);
    assert [e, f][0] == e && [e, f][1] == f;
    AcceptLeavesOthers(PumpAll(i, w.before), frames, e, f);
  }

  lemma {:induction false} SinglesKeep(i: Iop, frames: seq<Frame>, es: seq<Entry>, ws: seq<Weather>, n: nat)
    requires IopOk(i, frames) && AllStaged(i, frames, es) && Apart(es)
    ensures Took(i, Singles(i, es, ws, n).0, frames, es)
    decreases |es|
  {
    if es != [] {
      var w := Forecast(ws, n);
      var m := CallSingle(i, es[0], w).0;
      SingleKeeps(i, frames, es[0], w);
      forall k | 0 <= k < |es[1..]|
        ensures Staged(m, frames, es[1..][k])
      {
        SingleLeavesOthers(i, frames, es[0], w, es[k + 1]);
      }
      SinglesKeep(m, frames, es[1..], ws, n + 1);
      var r := Singles(i, es, ws, n).0;
      hide IopOk, Staged, CallSingle, Singles;
      TookMore(i, m, r, frames, es);
    }
  }

  lemma TookMore(i: Iop, m: Iop, r: Iop, frames: seq<Frame>, es: seq<Entry>)
    requires es != [] && IopShape(i) && m.data == i.data && m.accepted in {i.accepted, i.accepted + [es[0].id]}
    requires Took(m, r, frames, es[1..])
    ensures Took(i, r, frames, es)
  {
    hide IopOk;
    forall a | a in r.accepted && a !in i.accepted
      ensures exists k :: 0 <= k < |es| && es[k].id == a
    {
      if a in m.accepted {
        assert es[0].id == a;
      } else {
        var k :| 0 <= k < |es[1..]| && es[1..][k].id == a;
        assert es[k + 1].id == a;
      }
    }
  }

  lemma SpentIsRefused(i: Iop, frames: seq<Frame>, e: Entry, w: Weather)
    requires IopOk(i, frames) && Spent(i, e)
    ensures var r := CallSingle(i, e, w).0;
            IopOk(r, frames) && r.accepted == i.accepted && r.data == i.data && r.txSeq == i.txSeq
  {
    PumpAllKeeps(i, w.before, frames);
  }

  /** Resubmitting entries the IOP already took changes nothing but the pump's progress. */
  lemma {:induction false} SinglesOfSpent(i: Iop, frames: seq<Frame>, es: seq<Entry>, ws: seq<Weather>, n: nat)
    requires IopOk(i, frames) && forall k | 0 <= k < |es| :: Spent(i, es[k])
    ensures var r := Singles(i, es, ws, n).0; IopOk(r, frames) && r.accepted == i.accepted && r.data == i.data
    decreases |es|
  {
    if es != [] {
      var m := CallSingle(i, es[0], Forecast(ws, n)).0;
      assert Spent(i, es[0]);
      SpentIsRefused(i, frames, es[0], Forecast(ws, n));
      assert forall k | 0 <= k < |es[1..]| :: es[1..][k] == es[k + 1];
      hide CallSingle, IopOk;
      SinglesOfSpent(m, frames, es[1..], ws, n + 1);
    }
  }

  /** Every entry passes the checks of the IOP. */
  ghost predicate AllPass(i: Iop, es: seq<Entry>)
    requires IopShape(i)
  {
    forall k | 0 <= k < |es| :: Check(i, es[k]) == RC_OK
  }

  /** An accepted batch leaves every entry spent. */
  lemma AcceptedIsSpent(p: Iop, es: seq<Entry>)
    requires IopShape(p) && Apart(es) && AllPass(p, es)
    ensures forall k | 0 <= k < |es| :: Spent(AcceptAll(p, es), es[k])
  {
    forall k | 0 <= k < |es|
      ensures Spent(AcceptAll(p, es), es[k])
    {
      assert Check(p, es[k]) == RC_OK;
      AcceptAllSpends(p, es, k);
    }
  }

  /** A batch that runs but whose reply is lost has moved the IOP past every one of its entries. */
  lemma LostReplySpends(i: Iop, es: seq<Entry>, w: Weather)
    requires IopShape(i) && 0 < |es| <= SUBMIT_BATCH_MAX && Apart(es) && w.fate == ReplyLost
    requires AllPass(PumpAll(i, w.before), es)
    ensures CallBatch(i, es, w).1 == -5 && forall k | 0 <= k < |es| :: Spent(CallBatch(i, es, w).0, es[k])
  {
    hide AcceptAll, Spent, PumpAll, Apart, Check;
    AcceptedIsSpent(PumpAll(i, w.before), es);
  }

  lemma BatchTaken(p: Iop, frames: seq<Frame>, es: seq<Entry>, ws: seq<Weather>)
    requires IopOk(p, frames) && AllStaged(p, frames, es) && Apart(es) && FirstBad(p, es) == RC_OK
    ensures var r := AcceptAll(p, es); Took(p, r, frames, es) && Took(p, Singles(r, es, ws, 1).0, frames, es)
  {
    var r := AcceptAll(p, es);
    AcceptAllKeeps(p, frames, es);
    AcceptedIsSpent(p, es);
    SinglesOfSpent(r, frames, es, ws, 1);
    hide IopOk, Staged, Spent, AcceptAll, Singles;
    forall a | a in p.accepted + Ids(es)
      ensures a in p.accepted || exists k :: 0 <= k < |es| && es[k].id == a
    {
      if a !in p.accepted {
        assert a in Ids(es);
        var k :| 0 <= k < |es| && Ids(es)[k] == a;
        assert es[k].id == a;
      }
    }
  }

  lemma TookAfterPump(i: Iop, p: Iop, r: Iop, frames: seq<Frame>, es: seq<Entry>)
    requires IopShape(i) && p.accepted == i.accepted && p.data == i.data && Took(p, r, frames, es)
    ensures Took(i, r, frames, es)
  {
    hide IopOk;
  }

  lemma NothingTaken(p: Iop, frames: seq<Frame>, es: seq<Entry>)
    requires IopOk(p, frames)
    ensures Took(p, p, frames, es)
  {
  }

  /** Whatever the calls' fate - a lost request, or a batch that ran but whose reply was lost and
      which is then resubmitted entry by entry - the IOP accepts each entry at most once. */
  lemma FlushTakesEachOnce(i: Iop, frames: seq<Frame>, es: seq<Entry>, ws: seq<Weather>)
    requires IopOk(i, frames) && AllStaged(i, frames, es) && Apart(es) && 0 < |es| <= SUBMIT_BATCH_MAX
    ensures Took(i, Delivered(i, es, ws).0, frames, es)
  {
    var w := Forecast(ws, 0);
    var p := PumpAll(i, w.before);
    PumpAllKeeps(i, w.before, frames);
    PumpKeepsStaged(i, w.before, frames, es);
    var ran := w.fate != RequestLost && FirstBad(p, es) == RC_OK;
    if ran {
      BatchTaken(p, frames, es, ws);
    } else {
      SinglesKeep(p, frames, es, ws, 1);
      NothingTaken(p, frames, es);
    }
    var r := Delivered(i, es, ws).0;
    assert r in (if ran then {AcceptAll(p, es), Singles(AcceptAll(p, es), es, ws, 1).0}
           else {p, Singles(p, es, ws, 1).0});
    hide Delivered, IopOk, Staged, AcceptAll, Singles, PumpAll;
    TookAfterPump(i, p, r, frames, es);
  }

  // ---------------------------------------------------------------- every step

  lemma FlushKeeps(s: Smap, ws: seq<Weather>)
    requires Inv(s)
    ensures Inv(Flush(s, ws).0) && Flush(s, ws).0.frames == s.frames && s.iop.accepted <= Flush(s, ws).0.iop.accepted
  {
    if s.pending != [] {
      FlushTakesEachOnce(s.iop, s.frames, s.pending, ws);
    }
  }

  lemma {:induction false} WaitKeeps(s: Smap, bursts: seq<seq<Turn>>)
    requires Inv(s)
    ensures Inv(Wait(s, bursts).0) && Wait(s, bursts).0.frames == s.frames
    decreases |bursts|
  {
    if ScanFree(s) >= s.slotCount && bursts != [] {
      PumpAllKeeps(s.iop, bursts[0], s.frames);
      PumpKeepsStaged(s.iop, bursts[0], s.frames, s.pending);
      WaitKeeps(s.(iop := PumpAll(s.iop, bursts[0])), bursts[1..]);
    }
  }

  /** Bytes go only into a slot that is FREE and not staged, so no staged or accepted frame changes. */
  lemma StoringKeeps(s: Smap, slot: nat, bytes: Frame)
    requires Inv(s) && slot < s.slotCount && !s.claimed[slot] && !s.iop.busy[slot]
    ensures Inv(Stored(s, slot, bytes))
  {
    var t := Stored(s, slot, bytes);
    forall k | 0 <= k < TX_SLOTS && t.iop.busy[k]
      ensures Holds(t.iop, t.frames, k)
    {
      assert Holds(s.iop, s.frames, k);
    }
    forall k | 0 <= k < |t.pending|
      ensures Staged(t.iop, t.frames, t.pending[k])
    {
      assert Staged(s.iop, s.frames, s.pending[k]);
    }
  }

  lemma MoreFrames(i: Iop, frames: seq<Frame>, frame: Frame)
    requires IopOk(i, frames)
    ensures IopOk(i, frames + [frame])
    ensures forall e :: Staged(i, frames, e) ==> Staged(i, frames + [frame], e)
    ensures |frames| !in i.accepted
  {
    forall k | 0 <= k < TX_SLOTS && i.busy[k]
      ensures Holds(i, frames + [frame], k)
    {
      assert Holds(i, frames, k);
    }
  }

  lemma StagingKeeps(s: Smap, slot: nat, frame: Frame)
    requires Inv(s) && slot < s.slotCount && |s.pending| < SUBMIT_BATCH_MAX && !s.claimed[slot] && !s.iop.busy[slot]
    requires frame <= s.iop.data[slot] && FRAME_MIN <= |frame| <= FRAME_MAX
    ensures Inv(Stage(s, slot, frame))
  {
    hide IopOk;
    var t := Stage(s, slot, frame);
    MoreFrames(s.iop, s.frames, frame);
    forall k | 0 <= k < |s.pending|
      ensures s.pending[k].slot != slot && s.pending[k].id < |s.frames|
    {
      assert Staged(s.iop, s.frames, s.pending[k]);
    }
    assert ClaimsOk(t) by {
      hide AllStaged;
      forall c | 0 <= c < TX_SLOTS && t.claimed[c]
        ensures exists k :: 0 <= k < |t.pending| && t.pending[k].slot == c
      {
        if c == slot {
          assert t.pending[|s.pending|].slot == c;
        } else {
          var k :| 0 <= k < |s.pending| && s.pending[k].slot == c;
          assert t.pending[k].slot == c;
        }
      }
    }
  }

  lemma NextKeeps(s: Smap, next: nat)
    requires Inv(s) && (next < s.slotCount || next == 0)
    ensures Inv(s.(next := next))
  {
  }

  lemma SendIntoKeeps(s: Smap, slot: nat, frame: Frame, env: Env)
    requires Inv(s) && slot < s.slotCount && |s.pending| < SUBMIT_BATCH_MAX && !s.claimed[slot] && !s.iop.busy[slot]
    requires FRAME_MIN <= |frame| <= FRAME_MAX
    ensures Inv(SendInto(s, slot, frame, env).0)
  {
    hide Inv, Flush;
    var m := s.(next := SlotAfter(slot, s.slotCount));
    NextKeeps(s, SlotAfter(slot, s.slotCount));
    StoringKeeps(m, slot, env.padding);
    StoringKeeps(m, slot, frame + env.padding);
    var d := Stored(m, slot, frame + env.padding);
    assert frame <= d.iop.data[slot];
    StagingKeeps(d, slot, frame);
    FlushKeeps(Stage(d, slot, frame), env.last);
  }

  lemma PlaceKeeps(s: Smap, frame: Frame, env: Env)
    requires Inv(s) && |s.pending| < SUBMIT_BATCH_MAX && FRAME_MIN <= |frame| <= FRAME_MAX
    ensures Inv(Place(s, frame, env).0)
  {
    hide Inv, Flush, SendInto, Wait, ScanFree;
    InvShape(s);
    if ScanFree(s) < s.slotCount {
      SendIntoKeeps(s, ScanFree(s), frame, env);
    } else {
      FlushKeeps(s, env.full);
      var f := Flush(s, env.full).0;
      WaitKeeps(f, env.bursts);
      var (w, slot) := Wait(f, env.bursts);
      if slot < w.slotCount {
        SendIntoKeeps(w, slot, frame, env);
      }
    }
  }

  lemma SendKeeps(s: Smap, frame: Frame, env: Env)
    requires Inv(s)
    ensures Inv(Send(s, frame, env).0)
  {
    hide Inv, Flush, Place;
    InvShape(s);
    if Sendable(s, frame) {
      if |s.pending| < SUBMIT_BATCH_MAX {
        PlaceKeeps(s, frame, env);
      } else {
        FlushKeeps(s, env.first);
        var a := Flush(s, env.first).0;
        PlaceKeeps(a, frame, env);
      }
    }
  }

  lemma InvShape(s: Smap)
    requires Inv(s)
    ensures Shape(s)
  {
  }

  // ---------------------------------------------------------------- runs

  datatype Step = DoSend(frame: Frame, env: Env) | DoFlush(ws: seq<Weather>) | DoPump(turns: seq<Turn>)

  function Next(s: Smap, step: Step): (t: Smap)
    requires Shape(s)
    ensures Shape(t)
  {
    match step
    case DoSend(frame, env) => Send(s, frame, env).0
    case DoFlush(ws) => Flush(s, ws).0
    case DoPump(turns) => s.(iop := PumpAll(s.iop, turns))
  }

  function Run(s: Smap, steps: seq<Step>): (t: Smap)
    requires Shape(s)
    ensures Shape(t)
    decreases |steps|
  {
    if steps == [] then s else Run(Next(s, steps[0]), steps[1..])
  }

  function Initialised(slotCount: nat, slotSize: nat): (s: Smap)
    requires slotCount <= TX_SLOTS
    ensures Shape(s)
  {
    Smap(slotCount, slotSize, 0, [], Unclaimed(), seq(TX_SLOTS, _ => 0),
         Iop(seq(TX_SLOTS, _ => 0), seq(TX_SLOTS, _ => false), seq(TX_SLOTS, _ => 0), seq(TX_SLOTS, _ => []),
             seq(TX_SLOTS, _ => 0), [], []), [])
  }

  lemma InitialisedOk(slotCount: nat, slotSize: nat)
    requires slotCount <= TX_SLOTS
    ensures Inv(Initialised(slotCount, slotSize))
  {
  }

  lemma StepKeeps(s: Smap, step: Step)
    requires Inv(s)
    ensures Inv(Next(s, step))
  {
    match step {
      case DoSend(frame, env) => SendKeeps(s, frame, env);
      case DoFlush(ws) => FlushKeeps(s, ws);
      case DoPump(turns) =>
        PumpAllKeeps(s.iop, turns, s.frames);
        PumpKeepsStaged(s.iop, turns, s.frames, s.pending);
    }
  }

  lemma {:induction false} RunKeeps(s: Smap, steps: seq<Step>)
    requires Inv(s)
    ensures Inv(Run(s, steps))
    decreases |steps|
  {
    if steps != [] {
      StepKeeps(s, steps[0]);
      RunKeeps(Next(s, steps[0]), steps[1..]);
    }
  }

  /** Over every run and every pattern of lost calls: what goes out on the wire is, byte for
      byte, frames the EE staged, and no frame goes out twice; the claimed mask is exactly the
      set of staged slots. */
  lemma WireIsHonest(slotCount: nat, slotSize: nat, steps: seq<Step>)
    requires slotCount <= TX_SLOTS
    ensures var t := Run(Initialised(slotCount, slotSize), steps);
            WireOk(t.iop, t.frames) && Unique(t.iop.accepted) && ClaimsOk(t)
  {
    InitialisedOk(slotCount, slotSize);
    RunKeeps(Initialised(slotCount, slotSize), steps);
  }
}
