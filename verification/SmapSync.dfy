/**
 The two sides of the SMAP transmit path over lost calls: exactly which frames are lost, for one
 flush and for whole runs, and what a slot that lost one does from then on.
 */
module SmapSync {
  import opened Bytes
  import opened SmapModel
  import opened SmapRuns

  // ---------------------------------------------------------------- in step

  /** The numbers differ exactly on the claimed slots, and there by one. */
  ghost predicate InStep(s: Smap)
    requires Shape(s)
  {
    && (forall k | 0 <= k < TX_SLOTS :: s.txSeq[k] == if s.claimed[k] then Bumped(s.iop.txSeq[k]) else s.iop.txSeq[k])
    && (forall k | 0 <= k < |s.pending| ::
        s.pending[k].slot < TX_SLOTS && s.pending[k].txSeq == s.iop.txSeq[s.pending[k].slot])
  }

  function Count(n: nat): (ids: seq<nat>)
    ensures |ids| == n && forall k | 0 <= k < n :: ids[k] == k
  {
    seq(n, k => k)
  }

  /** The accepted frames followed by the staged ones are all frames, in order. */
  ghost predicate InOrder(s: Smap) {
    s.iop.accepted + Ids(s.pending) == Count(|s.frames|)
  }

  ghost predicate Synced(s: Smap) {
    Inv(s) && InStep(s) && InOrder(s)
  }

  lemma SyncedShape(s: Smap)
    requires Synced(s)
    ensures Shape(s) && Inv(s)
  {
    hide InStep, InOrder;
    assert Shape(s) by { InvShape(s); }
  }

  // ---------------------------------------------------------------- sequence numbers

  lemma {:induction false} PumpAllKeepsSeq(i: Iop, ts: seq<Turn>)
    requires IopShape(i)
    ensures PumpAll(i, ts).txSeq == i.txSeq
    decreases |ts|
  {
    if ts != [] {
      PumpAllKeepsSeq(Pump(i, ts[0]), ts[1..]);
    }
  }

  lemma SingleLeavesSlot(i: Iop, e: Entry, w: Weather, k: nat)
    requires IopShape(i) && k < TX_SLOTS && (e.slot == k ==> Spent(i, e))
    ensures IopShape(CallSingle(i, e, w).0) && CallSingle(i, e, w).0.txSeq[k] == i.txSeq[k]
  {
    PumpAllKeepsSeq(i, w.before);
  }

  lemma {:induction false} SinglesLeaveSlot(i: Iop, es: seq<Entry>, ws: seq<Weather>, n: nat, k: nat)
    requires IopShape(i) && k < TX_SLOTS && forall j | 0 <= j < |es| :: es[j].slot == k ==> Spent(i, es[j])
    ensures Singles(i, es, ws, n).0.txSeq[k] == i.txSeq[k]
    decreases |es|
  {
    if es != [] {
      SingleLeavesSlot(i, es[0], Forecast(ws, n), k);
      hide CallSingle;
      SinglesLeaveSlot(CallSingle(i, es[0], Forecast(ws, n)).0, es[1..], ws, n + 1, k);
    }
  }

  lemma {:induction false} AcceptAllBumps(i: Iop, es: seq<Entry>, slot: nat)
    requires IopShape(i) && Apart(es) && slot < TX_SLOTS && forall k | 0 <= k < |es| :: es[k].slot < TX_SLOTS
    ensures AcceptAll(i, es).txSeq[slot] == SeqAfter(i, es, slot)
    decreases |es|
  {
    if k :| 0 <= k < |es| && es[k].slot == slot {
      AcceptAllBumpsOne(i, es, k);
    } else {
      OthersKeepSeq(i, es, slot);
    }
  }

  /** A slot's number once every entry has been accepted. */
  function SeqAfter(i: Iop, es: seq<Entry>, slot: nat): u32
    requires IopShape(i) && slot < TX_SLOTS
  {
    if exists k :: 0 <= k < |es| && es[k].slot == slot then Bumped(i.txSeq[slot]) else i.txSeq[slot]
  }

  lemma {:induction false} AcceptAllBumpsOne(i: Iop, es: seq<Entry>, k: nat)
    requires IopShape(i) && Apart(es) && k < |es| && es[k].slot < TX_SLOTS
    ensures AcceptAll(i, es).txSeq[es[k].slot] == Bumped(i.txSeq[es[k].slot])
    decreases |es|
  {
    var a := Accept(i, es[0]);
    if k == 0 {
      OthersKeepSeq(a, es[1..], es[0].slot);
    } else {
      AcceptAllBumpsOne(a, es[1..], k - 1);
    }
  }

  // ---------------------------------------------------------------- entries on their own

  /** Staged, apart and passing every check. */
  ghost predicate Ready(i: Iop, frames: seq<Frame>, es: seq<Entry>) {
    IopOk(i, frames) && AllStaged(i, frames, es) && Apart(es) && AllPass(i, es)
  }

  lemma CheckSurvives(i: Iop, frames: seq<Frame>, e: Entry, w: Weather, f: Entry)
    requires IopOk(i, frames) && Staged(i, frames, e) && Staged(i, frames, f) && e.slot != f.slot && e.id != f.id
    requires Check(i, f) == RC_OK
    ensures IopShape(CallSingle(i, e, w).0) && Check(CallSingle(i, e, w).0, f) == RC_OK
  {
    PumpAllKeeps(i, w.before, frames);
    PumpKeepsStaged(i, w.before, frames, [e, f]);
    assert [e, f][0] == e && [e, f][1] == f;
    AcceptLeavesOthers(PumpAll(i, w.before), frames, e, f);
  }

  /** One call for a ready entry: the IOP takes it exactly when the request arrives. */
  lemma SingleTakes(i: Iop, frames: seq<Frame>, e: Entry, w: Weather)
    requires IopOk(i, frames) && Staged(i, frames, e) && Check(i, e) == RC_OK
    ensures var m := CallSingle(i, e, w).0;
            && IopOk(m, frames)
            && m.accepted == (if w.fate == RequestLost then i.accepted else i.accepted + [e.id])
            && m.txSeq == (if w.fate == RequestLost then i.txSeq else i.txSeq[e.slot := Bumped(i.txSeq[e.slot])])
  {
    SingleKeeps(i, frames, e, w);
    PumpAllKeeps(i, w.before, frames);
  }

  lemma SingleLeavesReady(i: Iop, frames: seq<Frame>, es: seq<Entry>, w: Weather)
    requires Ready(i, frames, es) && es != []
    ensures Ready(CallSingle(i, es[0], w).0, frames, es[1..])
  {
    var m := CallSingle(i, es[0], w).0;
    assert Staged(i, frames, es[0]) && Check(i, es[0]) == RC_OK;
    SingleTakes(i, frames, es[0], w);
    hide IopOk, Staged, Check, CallSingle;
    forall k | 0 <= k < |es[1..]|
      ensures Staged(m, frames, es[1..][k]) && Check(m, es[1..][k]) == RC_OK
    {
      assert es[1..][k] == es[k + 1] && Staged(i, frames, es[k + 1]) && Check(i, es[k + 1]) == RC_OK;
      SingleLeavesOthers(i, frames, es[0], w, es[k + 1]);
      CheckSurvives(i, frames, es[0], w, es[k + 1]);
    }
  }

  lemma ReadyMeans(i: Iop, frames: seq<Frame>, es: seq<Entry>)
    requires Ready(i, frames, es)
    ensures IopOk(i, frames) && IopShape(i) && AllStaged(i, frames, es) && Apart(es)
    ensures forall k | 0 <= k < |es| ::
              es[k].id !in i.accepted && es[k].slot < TX_SLOTS && Check(i, es[k]) == RC_OK && Staged(i, frames, es[k])
  {
  }

  lemma TookLeavesOut(m: Iop, r: Iop, frames: seq<Frame>, es: seq<Entry>)
    requires es != [] && Apart(es) && Took(m, r, frames, es[1..])
    ensures es[0].id in r.accepted <==> es[0].id in m.accepted
  {
    hide IopOk;
    assert forall k | 0 <= k < |es[1..]| :: es[1..][k] == es[k + 1];
    if es[0].id in m.accepted {
      var k :| 0 <= k < |m.accepted| && m.accepted[k] == es[0].id;
      assert r.accepted[k] == es[0].id;
    }
  }

  /** Resubmitting one by one, the IOP takes entry j exactly when its own request arrives. */
  lemma {:induction false} SinglesTake(i: Iop, frames: seq<Frame>, es: seq<Entry>, ws: seq<Weather>, n: nat, j: nat)
    requires Ready(i, frames, es) && j < |es|
    ensures es[j].id in Singles(i, es, ws, n).0.accepted <==> Forecast(ws, n + j).fate != RequestLost
    decreases |es|
  {
    hide Ready, CallSingle, IopOk, Staged, AllStaged, Check;
    ReadyMeans(i, frames, es);
    var m := CallSingle(i, es[0], Forecast(ws, n)).0;
    SingleTakes(i, frames, es[0], Forecast(ws, n));
    SingleLeavesReady(i, frames, es, Forecast(ws, n));
    ReadyMeans(m, frames, es[1..]);
    if j == 0 {
      SinglesKeep(m, frames, es[1..], ws, n + 1);
      TookLeavesOut(m, Singles(i, es, ws, n).0, frames, es);
    } else {
      SinglesTake(m, frames, es[1..], ws, n + 1, j - 1);
    }
  }

  predicate NoneLost(ws: seq<Weather>, n: nat, count: nat) {
    forall k | n <= k < n + count :: Forecast(ws, k).fate != RequestLost
  }

  /** If every request arrives, they are taken in order. */
  lemma {:induction false} SinglesTakeAll(i: Iop, frames: seq<Frame>, es: seq<Entry>, ws: seq<Weather>, n: nat)
    requires Ready(i, frames, es) && NoneLost(ws, n, |es|)
    ensures Singles(i, es, ws, n).0.accepted == i.accepted + Ids(es)
    decreases |es|
  {
    hide Ready, CallSingle, IopOk, Staged, AllStaged, Check;
    if es == [] {
      assert i.accepted + Ids(es) == i.accepted;
    } else {
      ReadyMeans(i, frames, es);
      var m := CallSingle(i, es[0], Forecast(ws, n)).0;
      assert Forecast(ws, n).fate != RequestLost;
      SingleTakes(i, frames, es[0], Forecast(ws, n));
      SingleLeavesReady(i, frames, es, Forecast(ws, n));
      SinglesTakeAll(m, frames, es[1..], ws, n + 1);
      IdsTail(es);
      Regroup(i.accepted, es[0].id, Ids(es[1..]));
    }
  }

  lemma {:induction false} SinglesBump(i: Iop, frames: seq<Frame>, es: seq<Entry>, ws: seq<Weather>, n: nat, slot: nat)
    requires Ready(i, frames, es) && NoneLost(ws, n, |es|) && slot < TX_SLOTS
    ensures IopShape(i) && Singles(i, es, ws, n).0.txSeq[slot] == SeqAfter(i, es, slot)
    decreases |es|
  {
    hide Ready, CallSingle, IopOk, Staged, AllStaged, Check, Bumped;
    ReadyMeans(i, frames, es);
    if es != [] {
      var m := CallSingle(i, es[0], Forecast(ws, n)).0;
      assert Forecast(ws, n).fate != RequestLost;
      SingleTakes(i, frames, es[0], Forecast(ws, n));
      SingleLeavesReady(i, frames, es, Forecast(ws, n));
      ReadyMeans(m, frames, es[1..]);
      if es[0].slot == slot {
        SinglesLeaveSlot(m, es[1..], ws, n + 1, slot);
      } else {
        SinglesBump(m, frames, es[1..], ws, n + 1, slot);
        assert forall k | 0 < k < |es| :: es[k] == es[1..][k - 1];
      }
    }
  }

  // ---------------------------------------------------------------- one flush

  /** Not both the batch request and the request of one of the entries are lost. */
  predicate Spared(es: seq<Entry>, ws: seq<Weather>) {
    Forecast(ws, 0).fate != RequestLost || NoneLost(ws, 1, |es|)
  }

  lemma SyncedIsReady(s: Smap, turns: seq<Turn>)
    requires Synced(s)
    ensures Shape(s) && Ready(PumpAll(s.iop, turns), s.frames, s.pending)
            && PumpAll(s.iop, turns).accepted == s.iop.accepted
    ensures PumpAll(s.iop, turns).txSeq == s.iop.txSeq
  {
    SyncedShape(s);
    var p := PumpAll(s.iop, turns);
    PumpAllKeeps(s.iop, turns, s.frames);
    PumpKeepsStaged(s.iop, turns, s.frames, s.pending);
    forall k | 0 <= k < |s.pending|
      ensures Check(p, s.pending[k]) == RC_OK
    {
      assert Staged(s.iop, s.frames, s.pending[k]);
    }
  }

  /** A batch whose request arrives is accepted whole: every staged entry passes every check. */
  lemma BatchIsTaken(s: Smap, w: Weather)
    requires Synced(s) && s.pending != [] && w.fate != RequestLost
    ensures CallBatch(s.iop, s.pending, w)
         == (AcceptAll(PumpAll(s.iop, w.before), s.pending), if w.fate == Answered then RC_OK else -5)
  {
    hide PumpAll, AcceptAll, Check, Staged, IopOk, InStep, InOrder;
    SyncedIsReady(s, w.before);
    SyncedShape(s);
  }

  /** What a batch that arrived leaves, whatever became of its reply. */
  lemma ArrivedBatch(s: Smap, ws: seq<Weather>)
    requires Synced(s) && s.pending != [] && Forecast(ws, 0).fate != RequestLost
    ensures var r := Delivered(s.iop, s.pending, ws).0;
            && r.accepted == s.iop.accepted + Ids(s.pending)
            && forall k | 0 <= k < TX_SLOTS :: r.txSeq[k] == SeqAfter(s.iop, s.pending, k)
  {
    hide Synced, PumpAll, AcceptAll, Check, Staged, IopOk, Singles, Ready, Bumped;
    SyncedShape(s);
    var w := Forecast(ws, 0);
    var p := PumpAll(s.iop, w.before);
    BatchIsTaken(s, w);
    SyncedIsReady(s, w.before);
    ReadyMeans(p, s.frames, s.pending);
    AcceptAllKeeps(p, s.frames, s.pending);
    var a := AcceptAll(p, s.pending);
    AllPassMeans(p, s.pending);
    AcceptedIsSpent(p, s.pending);
    SinglesOfSpent(a, s.frames, s.pending, ws, 1);
    forall k | 0 <= k < TX_SLOTS
      ensures a.txSeq[k] == SeqAfter(s.iop, s.pending, k)
      ensures Singles(a, s.pending, ws, 1).0.txSeq[k] == a.txSeq[k]
    {
      AcceptAllBumps(p, s.pending, k);
      SinglesLeaveSlot(a, s.pending, ws, 1, k);
    }
  }

  lemma AllPassMeans(i: Iop, es: seq<Entry>)
    requires IopShape(i)
    ensures AllPass(i, es) <==> forall k | 0 <= k < |es| :: Check(i, es[k]) == RC_OK
  {
  }

  lemma LostBatch(s: Smap, ws: seq<Weather>)
    requires Shape(s) && Forecast(ws, 0).fate == RequestLost
    ensures Delivered(s.iop, s.pending, ws).0 == Singles(PumpAll(s.iop, Forecast(ws, 0).before), s.pending, ws, 1).0
  {
  }

  /** Exactly which frames a flush loses: those whose batch request and whose own request are lost. */
  lemma EntryIsTakenExactly(s: Smap, ws: seq<Weather>, j: nat)
    requires Synced(s) && j < |s.pending|
    ensures Shape(s)
    ensures s.pending[j].id in Flush(s, ws).0.iop.accepted
            <==> !(Forecast(ws, 0).fate == RequestLost && Forecast(ws, 1 + j).fate == RequestLost)
  {
    hide Synced, PumpAll, Ready, Singles, Delivered;
    SyncedShape(s);
    if Forecast(ws, 0).fate != RequestLost {
      ArrivedBatch(s, ws);
      assert Ids(s.pending)[j] == s.pending[j].id;
    } else {
      LostBatch(s, ws);
      SyncedIsReady(s, Forecast(ws, 0).before);
      SinglesTake(PumpAll(s.iop, Forecast(ws, 0).before), s.frames, s.pending, ws, 1, j);
    }
  }

  lemma SparedDelivery(s: Smap, ws: seq<Weather>)
    requires Synced(s) && s.pending != [] && Spared(s.pending, ws)
    ensures var r := Delivered(s.iop, s.pending, ws).0;
            && r.accepted == s.iop.accepted + Ids(s.pending)
            && forall k | 0 <= k < TX_SLOTS :: r.txSeq[k] == SeqAfter(s.iop, s.pending, k)
  {
    hide Synced, PumpAll, Ready, Singles, Delivered, NoneLost;
    SyncedShape(s);
    if Forecast(ws, 0).fate != RequestLost {
      ArrivedBatch(s, ws);
    } else {
      LostBatch(s, ws);
      var p := PumpAll(s.iop, Forecast(ws, 0).before);
      SyncedIsReady(s, Forecast(ws, 0).before);
      SinglesTakeAll(p, s.frames, s.pending, ws, 1);
      forall k | 0 <= k < TX_SLOTS
        ensures Singles(p, s.pending, ws, 1).0.txSeq[k] == SeqAfter(s.iop, s.pending, k)
      {
        SinglesBump(p, s.frames, s.pending, ws, 1, k);
      }
    }
  }

  lemma SparedFlushKeeps(s: Smap, ws: seq<Weather>)
    requires Synced(s) && Spared(s.pending, ws)
    ensures Synced(Flush(s, ws).0)
  {
    FlushKeeps(s, ws);
    if s.pending != [] {
      SparedDelivery(s, ws);
      hide Delivered, IopOk, Staged, Bumped, Spared;
      var t := Flush(s, ws).0;
      forall k | 0 <= k < TX_SLOTS
        ensures t.txSeq[k] == t.iop.txSeq[k]
      {
        assert s.claimed[k] <==> exists j :: 0 <= j < |s.pending| && s.pending[j].slot == k;
      }
      assert t.iop.accepted + Ids([]) == t.iop.accepted;
    }
  }

  /** A frame that is neither accepted nor staged any more. */
  ghost predicate Lost(s: Smap, a: nat) {
    a < |s.frames| && a !in s.iop.accepted && forall k | 0 <= k < |s.pending| :: s.pending[k].id != a
  }

  lemma LostIsNotInOrder(s: Smap, a: nat)
    requires Lost(s, a)
    ensures !InOrder(s)
  {
    assert Count(|s.frames|)[a] == a;
    assert a in Count(|s.frames|) && a !in s.iop.accepted + Ids(s.pending);
  }

  lemma UnsparedFlushLoses(s: Smap, ws: seq<Weather>) returns (a: nat)
    requires Synced(s) && !Spared(s.pending, ws)
    ensures Lost(Flush(s, ws).0, a)
  {
    hide Synced, Flush;
    SyncedShape(s);
    var k :| 1 <= k < 1 + |s.pending| && Forecast(ws, k).fate == RequestLost;
    var j := k - 1;
    EntryIsTakenExactly(s, ws, j);
    FlushKeeps(s, ws);
    a := s.pending[j].id;
    StagedId(s, j);
  }

  lemma StagedId(s: Smap, j: nat)
    requires Inv(s) && j < |s.pending|
    ensures s.pending[j].id < |s.frames|
  {
    assert Staged(s.iop, s.frames, s.pending[j]);
  }

  /** One flush loses nothing exactly when it does not lose both its batch request and some entry's own. */
  lemma FlushLosesNothingExactly(s: Smap, ws: seq<Weather>)
    requires Synced(s) && s.pending != []
    ensures Shape(s)
    ensures InOrder(Flush(s, ws).0)
            <==> (Forecast(ws, 0).fate != RequestLost
                  || forall k :: 1 <= k <= |s.pending| ==> Forecast(ws, k).fate != RequestLost)
  {
    hide Flush, Inv, InStep, InOrder, Lost;
    SyncedShape(s);
    if Spared(s.pending, ws) {
      SparedFlushKeeps(s, ws);
    } else {
      var a := UnsparedFlushLoses(s, ws);
      LostIsNotInOrder(Flush(s, ws).0, a);
    }
  }

  // ---------------------------------------------------------------- whole runs

  /** A flush of a run: what it had to deliver, and its calls. */
  datatype Delivery = Delivery(entries: seq<Entry>, ws: seq<Weather>)

  predicate AllSpared(ds: seq<Delivery>) {
    forall k | 0 <= k < |ds| :: Spared(ds[k].entries, ds[k].ws)
  }

  function SendIntoFlushes(s: Smap, slot: nat, frame: Frame, env: Env): seq<Delivery>
    requires Shape(s) && slot < s.slotCount && |s.pending| < SUBMIT_BATCH_MAX
  {
    if env.written && |s.pending| + 1 >= SUBMIT_BATCH_MAX
    then [Delivery(s.pending + [Entry(slot, |frame|, s.txSeq[slot], |s.frames|)], env.last)] else []
  }

  function PlaceFlushes(s: Smap, frame: Frame, env: Env): seq<Delivery>
    requires Shape(s) && |s.pending| < SUBMIT_BATCH_MAX
  {
    if ScanFree(s) < s.slotCount then SendIntoFlushes(s, ScanFree(s), frame, env)
    else
      var (w, slot) := Wait(Flush(s, env.full).0, env.bursts);
      [Delivery(s.pending, env.full)] + if slot >= w.slotCount then [] else SendIntoFlushes(w, slot, frame, env)
  }

  function SendFlushes(s: Smap, frame: Frame, env: Env): seq<Delivery>
    requires Shape(s)
  {
    if !Sendable(s, frame) then []
    else if |s.pending| < SUBMIT_BATCH_MAX then PlaceFlushes(s, frame, env)
    else
      var (a, rc) := Flush(s, env.first);
      [Delivery(s.pending, env.first)] + if rc < 0 then [] else PlaceFlushes(a, frame, env)
  }

  /** The flushes of one step, in order. */
  function StepFlushes(s: Smap, step: Step): seq<Delivery>
    requires Shape(s)
  {
    match step
    case DoSend(frame, env) => SendFlushes(s, frame, env)
    case DoFlush(ws) => [Delivery(s.pending, ws)]
    case DoPump(_) => []
  }

  /** The flushes of a run. */
  function Flushes(s: Smap, steps: seq<Step>): seq<Delivery>
    requires Shape(s)
    decreases |steps|
  {
    if steps == [] then [] else StepFlushes(s, steps[0]) + Flushes(Next(s, steps[0]), steps[1..])
  }

  lemma SparedParts(a: seq<Delivery>, b: seq<Delivery>)
    ensures AllSpared(a + b) <==> AllSpared(a) && AllSpared(b)
    ensures forall d: Delivery :: AllSpared([d]) <==> Spared(d.entries, d.ws)
  {
    hide Spared;
    if AllSpared(a + b) {
      assert forall k | 0 <= k < |a| :: (a + b)[k] == a[k];
      assert forall k | 0 <= k < |b| :: (a + b)[|a| + k] == b[k];
    }
    assert forall d: Delivery :: [d][0] == d;
  }

  // ---------------------------------------------------------------- a lost frame stays lost

  lemma FlushKeepsLost(s: Smap, ws: seq<Weather>, a: nat)
    requires Inv(s) && Lost(s, a)
    ensures Lost(Flush(s, ws).0, a)
  {
    if s.pending != [] {
      FlushTakesEachOnce(s.iop, s.frames, s.pending, ws);
      hide IopOk, Delivered, Staged;
    }
  }

  lemma {:induction false} WaitKeepsLost(s: Smap, bursts: seq<seq<Turn>>, a: nat)
    requires Inv(s) && Lost(s, a)
    ensures Lost(Wait(s, bursts).0, a)
    decreases |bursts|
  {
    if ScanFree(s) >= s.slotCount && bursts != [] {
      StepKeeps(s, DoPump(bursts[0]));
      PumpAllKeeps(s.iop, bursts[0], s.frames);
      hide Inv, PumpAll, ScanFree;
      WaitKeepsLost(s.(iop := PumpAll(s.iop, bursts[0])), bursts[1..], a);
    }
  }

  lemma StoredKeepsLost(s: Smap, next: nat, slot: nat, bytes: Frame, a: nat)
    requires Inv(s) && Lost(s, a) && slot < s.slotCount && !s.claimed[slot] && !s.iop.busy[slot]
    requires next < s.slotCount || next == 0
    ensures var t := Stored(s.(next := next), slot, bytes); Inv(t) && Lost(t, a)
  {
    hide Inv;
    NextKeeps(s, next);
    StoringKeeps(s.(next := next), slot, bytes);
  }

  lemma SendIntoKeepsLost(s: Smap, slot: nat, frame: Frame, env: Env, a: nat)
    requires Inv(s) && Lost(s, a) && slot < s.slotCount && |s.pending| < SUBMIT_BATCH_MAX
    requires !s.claimed[slot] && !s.iop.busy[slot] && FRAME_MIN <= |frame| <= FRAME_MAX
    ensures Lost(SendInto(s, slot, frame, env).0, a)
  {
    var next := SlotAfter(slot, s.slotCount);
    StoredKeepsLost(s, next, slot, env.padding, a);
    StoredKeepsLost(s, next, slot, frame + env.padding, a);
    var d := Stored(s.(next := next), slot, frame + env.padding);
    assert frame <= d.iop.data[slot] && |d.pending| < SUBMIT_BATCH_MAX && !d.claimed[slot] && !d.iop.busy[slot];
    hide Inv, Flush;
    StagingKeeps(d, slot, frame);
    FlushKeepsLost(Stage(d, slot, frame), env.last, a);
  }

  lemma PlaceKeepsLost(s: Smap, frame: Frame, env: Env, a: nat)
    requires Inv(s) && Lost(s, a) && |s.pending| < SUBMIT_BATCH_MAX && FRAME_MIN <= |frame| <= FRAME_MAX
    ensures Lost(Place(s, frame, env).0, a)
  {
    hide Inv, Lost, Flush, SendInto, Wait, ScanFree;
    InvShape(s);
    if ScanFree(s) < s.slotCount {
      SendIntoKeepsLost(s, ScanFree(s), frame, env, a);
    } else {
      FlushKeeps(s, env.full);
      FlushKeepsLost(s, env.full, a);
      var f := Flush(s, env.full).0;
      WaitKeeps(f, env.bursts);
      WaitKeepsLost(f, env.bursts, a);
      var (w, slot) := Wait(f, env.bursts);
      if slot < w.slotCount {
        SendIntoKeepsLost(w, slot, frame, env, a);
      }
    }
  }

  lemma StepKeepsLost(s: Smap, step: Step, a: nat)
    requires Inv(s) && Lost(s, a)
    ensures Lost(Next(s, step), a)
  {
    match step {
      case DoSend(frame, env) =>
        hide Inv, Lost, Flush, Place;
        InvShape(s);
        if Sendable(s, frame) && |s.pending| < SUBMIT_BATCH_MAX {
          PlaceKeepsLost(s, frame, env, a);
        } else if Sendable(s, frame) {
          FlushKeeps(s, env.first);
          FlushKeepsLost(s, env.first, a);
          PlaceKeepsLost(Flush(s, env.first).0, frame, env, a);
        }
      case DoFlush(ws) => FlushKeepsLost(s, ws, a);
      case DoPump(turns) => PumpAllKeeps(s.iop, turns, s.frames);
    }
  }

  lemma {:induction false} RunKeepsLost(s: Smap, steps: seq<Step>, a: nat)
    requires Inv(s) && Lost(s, a)
    ensures Shape(s) && Lost(Run(s, steps), a)
    decreases |steps|
  {
    hide Inv, Lost, Next;
    InvShape(s);
    if steps != [] {
      StepKeeps(s, steps[0]);
      StepKeepsLost(s, steps[0], a);
      RunKeepsLost(Next(s, steps[0]), steps[1..], a);
    }
  }

  // ---------------------------------------------------------------- what each step does

  ghost predicate SomethingLost(s: Smap) {
    exists a: nat :: Lost(s, a)
  }

  /** In step if the flushes were spared, short of a frame if one was not. */
  ghost predicate AsSpared(s: Smap, spared: bool) {
    if spared then Synced(s) else Inv(s) && SomethingLost(s)
  }

  lemma FlushAsSpared(s: Smap, ws: seq<Weather>)
    requires Synced(s)
    ensures Shape(s) && AsSpared(Flush(s, ws).0, Spared(s.pending, ws))
  {
    hide Synced, Inv, Lost, Flush, Spared;
    SyncedShape(s);
    FlushKeeps(s, ws);
    if Spared(s.pending, ws) {
      SparedFlushKeeps(s, ws);
    } else {
      var a := UnsparedFlushLoses(s, ws);
    }
  }

  lemma InvClaims(s: Smap)
    requires Inv(s)
    ensures Shape(s) && ClaimsOk(s)
  {
  }

  lemma StageKeepsSync(s: Smap, slot: nat, frame: Frame)
    requires Synced(s) && slot < s.slotCount && |s.pending| < SUBMIT_BATCH_MAX && !s.claimed[slot]
             && Inv(Stage(s, slot, frame))
    ensures Synced(Stage(s, slot, frame))
  {
    hide Inv, Bumped;
    InvClaims(s);
    StageKeepsStep(s, slot, frame);
    StageKeepsOrder(s, slot, frame);
  }

  lemma StageKeepsStep(s: Smap, slot: nat, frame: Frame)
    requires Shape(s) && InStep(s) && slot < s.slotCount && |s.pending| < SUBMIT_BATCH_MAX && !s.claimed[slot]
    ensures InStep(Stage(s, slot, frame))
  {
    hide Bumped;
  }

  lemma StageKeepsOrder(s: Smap, slot: nat, frame: Frame)
    requires Shape(s) && InOrder(s) && slot < s.slotCount && |s.pending| < SUBMIT_BATCH_MAX
    ensures InOrder(Stage(s, slot, frame))
  {
    hide Shape;
    var t := Stage(s, slot, frame);
    assert Ids(t.pending) == Ids(s.pending) + [|s.frames|];
    assert s.iop.accepted + (Ids(s.pending) + [|s.frames|]) == Count(|s.frames|) + [|s.frames|] == Count(|t.frames|);
  }

  lemma StoredKeepsSync(s: Smap, next: nat, slot: nat, bytes: Frame)
    requires Synced(s) && slot < s.slotCount && !s.claimed[slot] && !s.iop.busy[slot]
             && (next < s.slotCount || next == 0)
    ensures Synced(Stored(s.(next := next), slot, bytes))
  {
    hide Inv;
    NextKeeps(s, next);
    StoringKeeps(s.(next := next), slot, bytes);
  }

  lemma SendIntoAsSpared(s: Smap, slot: nat, frame: Frame, env: Env)
    requires Synced(s) && slot < s.slotCount && |s.pending| < SUBMIT_BATCH_MAX && !s.claimed[slot] && !s.iop.busy[slot]
    requires FRAME_MIN <= |frame| <= FRAME_MAX
    ensures AsSpared(SendInto(s, slot, frame, env).0, AllSpared(SendIntoFlushes(s, slot, frame, env)))
  {
    hide Inv, InStep, InOrder, Flush, Spared, Lost;
    SyncedShape(s);
    var next := SlotAfter(slot, s.slotCount);
    StoredKeepsSync(s, next, slot, env.padding);
    StoredKeepsSync(s, next, slot, frame + env.padding);
    var d := Stored(s.(next := next), slot, frame + env.padding);
    assert frame <= d.iop.data[slot] && |d.pending| < SUBMIT_BATCH_MAX && !d.claimed[slot] && !d.iop.busy[slot];
    StagingKeeps(d, slot, frame);
    StageKeepsSync(d, slot, frame);
    FlushAsSpared(Stage(d, slot, frame), env.last);
    SparedParts([], []);
  }

  lemma {:induction false} WaitKeepsSync(s: Smap, bursts: seq<seq<Turn>>)
    requires Synced(s)
    ensures Synced(Wait(s, bursts).0)
    decreases |bursts|
  {
    if ScanFree(s) >= s.slotCount && bursts != [] {
      var p := s.(iop := PumpAll(s.iop, bursts[0]));
      PumpAllKeeps(s.iop, bursts[0], s.frames);
      PumpKeepsStaged(s.iop, bursts[0], s.frames, s.pending);
      hide PumpAll;
      assert Synced(p);
      WaitKeepsSync(p, bursts[1..]);
    }
  }

  lemma PlaceAsSpared(s: Smap, frame: Frame, env: Env)
    requires Synced(s) && |s.pending| < SUBMIT_BATCH_MAX && FRAME_MIN <= |frame| <= FRAME_MAX
    ensures AsSpared(Place(s, frame, env).0, AllSpared(PlaceFlushes(s, frame, env)))
  {
    hide Synced, Inv, Lost, Flush, SendInto, SendIntoFlushes, Wait, ScanFree, Spared, AllSpared;
    SyncedShape(s);
    PlaceKeeps(s, frame, env);
    if ScanFree(s) < s.slotCount {
      SendIntoAsSpared(s, ScanFree(s), frame, env);
    } else {
      FlushAsSpared(s, env.full);
      var f := Flush(s, env.full).0;
      var (w, slot) := Wait(f, env.bursts);
      var rest := if slot >= w.slotCount then [] else SendIntoFlushes(w, slot, frame, env);
      SparedParts([Delivery(s.pending, env.full)], rest);
      NoFlushesSpared();
      if Spared(s.pending, env.full) {
        WaitKeepsSync(f, env.bursts);
        if slot < w.slotCount {
          SendIntoAsSpared(w, slot, frame, env);
        }
      } else {
        var a: nat :| Lost(f, a);
        FlushKeeps(s, env.full);
        WaitKeeps(f, env.bursts);
        WaitKeepsLost(f, env.bursts, a);
        if slot < w.slotCount {
          SendIntoKeepsLost(w, slot, frame, env, a);
        }
      }
    }
  }

  lemma NoFlushesSpared()
    ensures AllSpared([])
  {
  }

  lemma SendAsSpared(s: Smap, frame: Frame, env: Env)
    requires Synced(s)
    ensures Shape(s) && AsSpared(Send(s, frame, env).0, AllSpared(SendFlushes(s, frame, env)))
  {
    hide Synced, Inv, Lost, Flush, Place, PlaceFlushes, Spared, AllSpared;
    SyncedShape(s);
    NoFlushesSpared();
    SendKeeps(s, frame, env);
    if Sendable(s, frame) && |s.pending| < SUBMIT_BATCH_MAX {
      PlaceAsSpared(s, frame, env);
    } else if Sendable(s, frame) {
      FlushAsSpared(s, env.first);
      FlushKeeps(s, env.first);
      var (f, rc) := Flush(s, env.first);
      SparedParts([Delivery(s.pending, env.first)], if rc < 0 then [] else PlaceFlushes(f, frame, env));
      if Spared(s.pending, env.first) {
        PlaceAsSpared(f, frame, env);
      } else {
        var a: nat :| Lost(f, a);
        PlaceKeepsLost(f, frame, env, a);
      }
    }
  }

  lemma StepAsSpared(s: Smap, step: Step)
    requires Synced(s)
    ensures Shape(s) && AsSpared(Next(s, step), AllSpared(StepFlushes(s, step)))
  {
    hide Synced, Inv, Lost, Flush, Send, SendFlushes, Spared, AllSpared;
    SyncedShape(s);
    NoFlushesSpared();
    match step {
      case DoSend(frame, env) => SendAsSpared(s, frame, env);
      case DoFlush(ws) =>
        FlushAsSpared(s, ws);
        SparedParts([Delivery(s.pending, ws)], []);
      case DoPump(turns) => PumpKeepsSync(s, turns);
    }
  }

  lemma PumpKeepsSync(s: Smap, turns: seq<Turn>)
    requires Synced(s)
    ensures Shape(s) && Synced(s.(iop := PumpAll(s.iop, turns)))
  {
    PumpAllKeeps(s.iop, turns, s.frames);
    PumpKeepsStaged(s.iop, turns, s.frames, s.pending);
  }

  lemma {:induction false} RunAsSpared(s: Smap, steps: seq<Step>)
    requires Synced(s)
    ensures Shape(s) && AsSpared(Run(s, steps), AllSpared(Flushes(s, steps)))
    decreases |steps|
  {
    hide Synced, Inv, Lost, Next, StepFlushes, AllSpared;
    SyncedShape(s);
    NoFlushesSpared();
    if steps != [] {
      var n := Next(s, steps[0]);
      StepAsSpared(s, steps[0]);
      SparedParts(StepFlushes(s, steps[0]), Flushes(n, steps[1..]));
      if AllSpared(StepFlushes(s, steps[0])) {
        RunAsSpared(n, steps[1..]);
      } else {
        var a: nat :| Lost(n, a);
        RunKeepsLost(n, steps[1..], a);
        RunKeeps(n, steps[1..]);
      }
    }
  }

  lemma InitialisedInSync(slotCount: nat, slotSize: nat)
    requires slotCount <= TX_SLOTS
    ensures Synced(Initialised(slotCount, slotSize))
  {
    InitialisedOk(slotCount, slotSize);
  }

  /** Every staged frame is accepted exactly once and in order if and only if no flush of the run
      loses both its batch request and the request of one of its entries; lost replies lose
      nothing. The two sides' numbers then differ exactly on the claimed slots. */
  lemma NothingIsLostExactly(slotCount: nat, slotSize: nat, steps: seq<Step>)
    requires slotCount <= TX_SLOTS
    ensures var s := Initialised(slotCount, slotSize);
            var t := Run(s, steps);
            && (t.iop.accepted + Ids(t.pending) == Count(|t.frames|) <==> AllSpared(Flushes(s, steps)))
            && (AllSpared(Flushes(s, steps)) ==>
                  forall k | 0 <= k < TX_SLOTS :: t.txSeq[k] != t.iop.txSeq[k] <==> t.claimed[k])
  {
    hide Inv, AllSpared, Flushes, Run, Initialised, Lost;
    var s := Initialised(slotCount, slotSize);
    InitialisedInSync(slotCount, slotSize);
    RunAsSpared(s, steps);
    var t := Run(s, steps);
    if !AllSpared(Flushes(s, steps)) {
      var a: nat :| Lost(t, a);
      LostIsNotInOrder(t, a);
    }
  }

  // ---------------------------------------------------------------- result codes

  predicate Answers(ws: seq<Weather>) {
    forall k | 0 <= k < |ws| :: ws[k].fate == Answered
  }

  /** A flush whose batch call is answered succeeds. */
  lemma AnsweredFlushSucceeds(s: Smap, ws: seq<Weather>)
    requires Synced(s) && Answers(ws)
    ensures Shape(s) && Flush(s, ws).1 == 0
  {
    hide Synced, PumpAll;
    SyncedShape(s);
    if s.pending != [] {
      BatchIsTaken(s, Forecast(ws, 0));
    }
  }

  /** When every call is answered a send reports only its own refusals. */
  lemma AnsweredSendCodes(s: Smap, frame: Frame, env: Env)
    requires Synced(s) && Answers(env.first) && Answers(env.full) && Answers(env.last)
    ensures Shape(s) && Send(s, frame, env).1 in {0, -2, -3, -4}
  {
    hide Synced, Flush, Wait, ScanFree, Answers, SendInto;
    SyncedShape(s);
    AnsweredFlushSucceeds(s, env.first);
    forall t: Smap, slot: nat | Shape(t) && slot < t.slotCount && |t.pending| < SUBMIT_BATCH_MAX
      ensures SendInto(t, slot, frame, env).1 in {0, -4}
    {
      SendIntoCode(t, slot, frame, env);
    }
  }

  lemma SendIntoCode(s: Smap, slot: nat, frame: Frame, env: Env)
    requires Shape(s) && slot < s.slotCount && |s.pending| < SUBMIT_BATCH_MAX
    ensures SendInto(s, slot, frame, env).1 in {0, -4}
  {
  }

  // ---------------------------------------------------------------- after a loss

  /** How far the EE's number for a slot is ahead of the IOP's. */
  function Lead(s: Smap, k: nat): nat
    requires Shape(s) && k < TX_SLOTS
  {
    Wrap32((s.txSeq[k] as int) - s.iop.txSeq[k])
  }

  ghost predicate EntriesCurrent(s: Smap)
    requires Shape(s)
  {
    forall n | 0 <= n < |s.pending| ::
        s.pending[n].slot < TX_SLOTS && Bumped(s.pending[n].txSeq) == s.txSeq[s.pending[n].slot]
  }

  /** Slot k has lost a frame, and `room` more sends will not bring the numbers round. */
  ghost predicate Behind(s: Smap, k: nat, room: nat) {
    && Inv(s) && EntriesCurrent(s) && k < TX_SLOTS
    && (if s.claimed[k] then 2 else 1) <= Lead(s, k) < 0x1_0000_0000 - room
  }

  lemma LeadOfEntry(s: Smap, k: nat, n: nat)
    requires Behind(s, k, 0) && n < |s.pending| && s.pending[n].slot == k
    ensures Spent(s.iop, s.pending[n])
  {
    assert s.claimed[k];
  }

  lemma SpentSinksTheBatch(i: Iop, es: seq<Entry>, j: nat)
    requires IopShape(i) && j < |es| && Spent(i, es[j])
    ensures FirstBad(i, es) != RC_OK
  {
  }

  /** Neither the batch nor the singles advance a slot whose entries the IOP has moved past. */
  lemma DeliveryLeavesSlot(i: Iop, es: seq<Entry>, ws: seq<Weather>, k: nat)
    requires IopShape(i) && k < TX_SLOTS && forall j | 0 <= j < |es| :: es[j].slot == k ==> Spent(i, es[j])
    ensures Delivered(i, es, ws).0.txSeq[k] == i.txSeq[k]
  {
    hide PumpAll;
    var p := PumpAll(i, Forecast(ws, 0).before);
    PumpAllKeepsSeq(i, Forecast(ws, 0).before);
    if j :| 0 <= j < |es| && es[j].slot == k {
      SpentSinksTheBatch(p, es, j);
    } else {
      OthersKeepSeq(p, es, k);
    }
    BatchOutcome(p, es);
    SinglesLeaveSlot(SubmitBatch(p, es).0, es, ws, 1, k);
    SinglesLeaveSlot(p, es, ws, 1, k);
  }

  lemma BatchOutcome(p: Iop, es: seq<Entry>)
    requires IopShape(p)
    ensures IopShape(SubmitBatch(p, es).0)
    ensures SubmitBatch(p, es).0 == p || (FirstBad(p, es) == RC_OK && SubmitBatch(p, es).0 == AcceptAll(p, es))
  {
  }

  lemma FlushStaysBehind(s: Smap, ws: seq<Weather>, k: nat, room: nat)
    requires Behind(s, k, room)
    ensures Behind(Flush(s, ws).0, k, room) && Flush(s, ws).0.iop.txSeq[k] == s.iop.txSeq[k]
  {
    FlushKeeps(s, ws);
    if s.pending != [] {
      forall j | 0 <= j < |s.pending| && s.pending[j].slot == k
        ensures Spent(s.iop, s.pending[j])
      {
        LeadOfEntry(s, k, j);
      }
      DeliveryLeavesSlot(s.iop, s.pending, ws, k);
      hide Delivered, Inv;
    }
  }

  lemma StoredStaysBehind(s: Smap, next: nat, slot: nat, bytes: Frame, k: nat, room: nat)
    requires Behind(s, k, room) && slot < s.slotCount && !s.claimed[slot] && !s.iop.busy[slot]
             && (next < s.slotCount || next == 0)
    ensures Behind(Stored(s.(next := next), slot, bytes), k, room)
  {
    hide Inv;
    NextKeeps(s, next);
    StoringKeeps(s.(next := next), slot, bytes);
  }

  lemma StagedStaysBehind(s: Smap, slot: nat, frame: Frame, k: nat, room: nat)
    requires Behind(s, k, room + 1) && slot < s.slotCount && |s.pending| < SUBMIT_BATCH_MAX && !s.claimed[slot]
             && Inv(Stage(s, slot, frame))
    ensures Behind(Stage(s, slot, frame), k, room)
  {
    hide Inv, EntriesCurrent, Lead;
    InvClaims(s);
    StagedEntriesCurrent(s, slot, frame);
    StagedLead(s, slot, frame, k);
  }

  lemma StagedEntriesCurrent(s: Smap, slot: nat, frame: Frame)
    requires Shape(s) && ClaimsOk(s) && EntriesCurrent(s)
    requires slot < s.slotCount && |s.pending| < SUBMIT_BATCH_MAX && !s.claimed[slot]
    ensures EntriesCurrent(Stage(s, slot, frame))
  {
    hide Bumped;
    forall n | 0 <= n < |s.pending|
      ensures s.pending[n].slot != slot
    {
      assert s.claimed[s.pending[n].slot];
    }
  }

  lemma StagedLead(s: Smap, slot: nat, frame: Frame, k: nat)
    requires Shape(s) && slot < s.slotCount && |s.pending| < SUBMIT_BATCH_MAX && !s.claimed[slot] && k < TX_SLOTS
    requires Lead(s, k) < 0xffff_ffff
    ensures var t := Stage(s, slot, frame);
            && Lead(t, k) == (if k == slot then Lead(s, k) + 1 else Lead(s, k))
            && t.claimed[k] == (k == slot || s.claimed[k])
  {
  }

  lemma SendIntoStaysBehind(s: Smap, slot: nat, frame: Frame, env: Env, k: nat, room: nat)
    requires Behind(s, k, room + 1) && slot < s.slotCount && |s.pending| < SUBMIT_BATCH_MAX && !s.claimed[slot]
             && !s.iop.busy[slot]
    requires FRAME_MIN <= |frame| <= FRAME_MAX
    ensures var t := SendInto(s, slot, frame, env).0; Behind(t, k, room) && t.iop.txSeq[k] == s.iop.txSeq[k]
  {
    var next := SlotAfter(slot, s.slotCount);
    var m := s.(next := next);
    StoredStaysBehind(s, next, slot, env.padding, k, room + 1);
    StoredStaysBehind(s, next, slot, frame + env.padding, k, room + 1);
    var d := Stored(m, slot, frame + env.padding);
    assert frame <= d.iop.data[slot] && |d.pending| < SUBMIT_BATCH_MAX && !d.claimed[slot] && !d.iop.busy[slot];
    assert d.iop.txSeq == s.iop.txSeq && Stored(m, slot, env.padding).iop.txSeq == s.iop.txSeq;
    StagingKeeps(d, slot, frame);
    hide Flush, Inv, EntriesCurrent;
    StagedStaysBehind(d, slot, frame, k, room);
    FlushStaysBehind(Stage(d, slot, frame), env.last, k, room);
    assert Behind(Stored(m, slot, env.padding), k, room);
  }

  lemma PumpStaysBehind(s: Smap, turns: seq<Turn>, k: nat, room: nat)
    requires Behind(s, k, room)
    ensures var t := s.(iop := PumpAll(s.iop, turns)); Behind(t, k, room) && t.iop.txSeq[k] == s.iop.txSeq[k]
  {
    hide PumpAll, Inv;
    InvClaims(s);
    StepKeeps(s, DoPump(turns));
    PumpAllKeepsSeq(s.iop, turns);
  }

  lemma {:induction false} WaitStaysBehind(s: Smap, bursts: seq<seq<Turn>>, k: nat, room: nat)
    requires Behind(s, k, room)
    ensures Behind(Wait(s, bursts).0, k, room) && Wait(s, bursts).0.iop.txSeq[k] == s.iop.txSeq[k]
    decreases |bursts|
  {
    hide Behind, PumpAll, ScanFree;
    BehindShape(s, k, room);
    if ScanFree(s) >= s.slotCount && bursts != [] {
      PumpStaysBehind(s, bursts[0], k, room);
      WaitStaysBehind(s.(iop := PumpAll(s.iop, bursts[0])), bursts[1..], k, room);
    }
  }

  lemma BehindShape(s: Smap, k: nat, room: nat)
    requires Behind(s, k, room)
    ensures Shape(s) && k < TX_SLOTS && forall r: nat | r <= room :: Behind(s, k, r)
  {
    hide Inv;
    assert Shape(s) by { InvShape(s); }
  }

  lemma PlaceStaysBehind(s: Smap, frame: Frame, env: Env, k: nat, room: nat)
    requires Behind(s, k, room + 1) && |s.pending| < SUBMIT_BATCH_MAX && FRAME_MIN <= |frame| <= FRAME_MAX
    ensures Shape(s)
    ensures var t := Place(s, frame, env).0; Behind(t, k, room) && t.iop.txSeq[k] == s.iop.txSeq[k]
  {
    hide Behind, Flush, Wait, ScanFree, SendInto;
    BehindShape(s, k, room + 1);
    if ScanFree(s) < s.slotCount {
      SendIntoStaysBehind(s, ScanFree(s), frame, env, k, room);
    } else {
      FlushStaysBehind(s, env.full, k, room + 1);
      var f := Flush(s, env.full).0;
      WaitStaysBehind(f, env.bursts, k, room + 1);
      var (w, slot) := Wait(f, env.bursts);
      BehindShape(w, k, room + 1);
      if slot < w.slotCount {
        SendIntoStaysBehind(w, slot, frame, env, k, room);
      }
    }
  }

  lemma SendStaysBehind(s: Smap, frame: Frame, env: Env, k: nat, room: nat)
    requires Behind(s, k, room + 1)
    ensures Shape(s)
    ensures var t := Send(s, frame, env).0; Behind(t, k, room) && t.iop.txSeq[k] == s.iop.txSeq[k]
  {
    hide Behind, Flush, Place;
    BehindShape(s, k, room + 1);
    if Sendable(s, frame) {
      if |s.pending| < SUBMIT_BATCH_MAX {
        PlaceStaysBehind(s, frame, env, k, room);
      } else {
        FlushStaysBehind(s, env.first, k, room + 1);
        var a := Flush(s, env.first).0;
        BehindShape(a, k, room + 1);
        PlaceStaysBehind(a, frame, env, k, room);
      }
    }
  }

  lemma StepStaysBehind(s: Smap, step: Step, k: nat, room: nat)
    requires Behind(s, k, room + 1)
    ensures Behind(Next(s, step), k, room) && Next(s, step).iop.txSeq[k] == s.iop.txSeq[k]
  {
    hide Behind, PumpAll, Send, Flush;
    BehindShape(s, k, room + 1);
    match step {
      case DoSend(frame, env) => SendStaysBehind(s, frame, env, k, room);
      case DoFlush(ws) => FlushStaysBehind(s, ws, k, room);
      case DoPump(turns) => PumpStaysBehind(s, turns, k, room);
    }
  }

  /** A slot that has lost one frame loses every later one: the IOP accepts nothing in it again,
      in any run shorter than the 2^32 sends that bring the numbers round. */
  lemma {:induction false} LostSlotStaysLost(s: Smap, steps: seq<Step>, k: nat)
    requires Behind(s, k, |steps|)
    ensures Run(s, steps).iop.txSeq[k] == s.iop.txSeq[k]
    decreases |steps|
  {
    if steps != [] {
      StepStaysBehind(s, steps[0], k, |steps| - 1);
      hide Behind;
      LostSlotStaysLost(Next(s, steps[0]), steps[1..], k);
    }
  }

  lemma {:induction false} SinglesMissLost(i: Iop, es: seq<Entry>, ws: seq<Weather>, n: nat, j: nat)
    requires IopShape(i) && Apart(es) && j < |es| && es[j].slot < TX_SLOTS && Forecast(ws, n + j).fate == RequestLost
    ensures Singles(i, es, ws, n).0.txSeq[es[j].slot] == i.txSeq[es[j].slot]
    decreases |es|
  {
    var k := es[j].slot;
    var m := CallSingle(i, es[0], Forecast(ws, n)).0;
    PumpAllKeepsSeq(i, Forecast(ws, n).before);
    assert m.txSeq[k] == i.txSeq[k];
    if j == 0 {
      SinglesLeaveSlot(m, es[1..], ws, n + 1, k);
    } else {
      SinglesMissLost(m, es[1..], ws, n + 1, j - 1);
    }
  }

  lemma SinglesAreTheFlush(s: Smap, ws: seq<Weather>)
    requires Shape(s) && s.pending != [] && Forecast(ws, 0).fate == RequestLost
    ensures Flush(s, ws).0 == s.(iop := Singles(PumpAll(s.iop, Forecast(ws, 0).before), s.pending, ws, 1).0,
            pending := [], claimed := Unclaimed())
  {
  }

  /** And losing one takes no more than losing the batch call and then the entry's own call. */
  lemma LostCallLosesTheSlot(s: Smap, ws: seq<Weather>, j: nat)
    requires Synced(s) && j < |s.pending| && Forecast(ws, 0).fate == RequestLost
             && Forecast(ws, 1 + j).fate == RequestLost
    ensures Behind(Flush(s, ws).0, s.pending[j].slot, 0xffff_fffe)
  {
    hide PumpAll, Singles, Flush, Inv, InOrder, Forecast, Bumped;
    InvClaims(s);
    var k := s.pending[j].slot;
    var p := PumpAll(s.iop, Forecast(ws, 0).before);
    PumpAllKeepsSeq(s.iop, Forecast(ws, 0).before);
    SinglesMissLost(p, s.pending, ws, 1, j);
    FlushKeeps(s, ws);
    SinglesAreTheFlush(s, ws);
    LeadOfClaimed(s, Flush(s, ws).0, k);
  }

  lemma LeadOfClaimed(s: Smap, t: Smap, k: nat)
    requires Shape(s) && Shape(t) && InStep(s) && k < TX_SLOTS && s.claimed[k]
    requires t.txSeq[k] == s.txSeq[k] && t.iop.txSeq[k] == s.iop.txSeq[k]
    ensures Lead(t, k) == 1
  {
  }
}
