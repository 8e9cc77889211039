/** What the transmit path does with a frame: the codes a send returns, and where accepted frames are. */
module SmapDelivery {
  import opened SmapModel
  import opened SmapRuns

  // ---------------------------------------------------------------- codes

  /** A batch is refused for its size, then for its first bad entry; otherwise every entry is taken, none
      or all. */
  lemma BatchMeans(i: Iop, es: seq<Entry>)
    requires IopShape(i)
    ensures var (r, rc) := SubmitBatch(i, es);
            && (|es| == 0 || |es| > 8 ==> rc == -3 && r == i)
            && (1 <= |es| <= 8 && rc == 0 ==> AllPass(i, es) && r == AcceptAll(i, es))
            && (1 <= |es| <= 8 && rc != 0 ==>
                  r == i && exists k: nat :: FirstFailure(i, es, k) && rc == Check(i, es[k]))
  {
    if 1 <= |es| <= 8 && FirstBad(i, es) != RC_OK {
      var _ := BadEntry(i, es);
    }
  }

  ghost predicate FirstFailure(i: Iop, es: seq<Entry>, k: nat)
    requires IopShape(i)
  {
    k < |es| && Check(i, es[k]) != 0 && forall j | 0 <= j < k :: Check(i, es[j]) == 0
  }

  lemma {:induction false} BadEntry(i: Iop, es: seq<Entry>) returns (k: nat)
    requires IopShape(i) && FirstBad(i, es) != RC_OK
    ensures FirstFailure(i, es, k) && FirstBad(i, es) == Check(i, es[k])
    decreases |es|
  {
    if Check(i, es[0]) != RC_OK {
      k := 0;
    } else {
      var j := BadEntry(i, es[1..]);
      k := j + 1;
      forall m | 0 <= m < k
        ensures Check(i, es[m]) == 0
      {
        if m > 0 {
          assert es[1..][m - 1] == es[m];
        }
      }
    }
  }

  /** A failed call shows as -5, whether the IOP ran it or not; an answered one shows the IOP's code. */
  lemma CallMeans(i: Iop, e: Entry, es: seq<Entry>, w: Weather)
    requires IopShape(i)
    ensures var p := PumpAll(i, w.before);
            && CallSingle(i, e, w)
               == (if w.fate == RequestLost then p else SubmitSingle(p, e).0,
                   if w.fate == Answered then SubmitSingle(p, e).1 else -5)
            && CallBatch(i, es, w)
               == (if w.fate == RequestLost then p else SubmitBatch(p, es).0,
                   if w.fate == Answered then SubmitBatch(p, es).1 else -5)
  {
    hide PumpAll, SubmitSingle, SubmitBatch;
  }

  /** The code of call k of the fallback. */
  function Code(i: Iop, es: seq<Entry>, ws: seq<Weather>, n: nat, k: nat): int
    requires IopShape(i) && k < |es|
    decreases k
  {
    var (m, rc) := CallSingle(i, es[0], Forecast(ws, n));
    if k == 0 then rc else Code(m, es[1..], ws, n + 1, k - 1)
  }

  /** The fallback returns 0 exactly if every call did, and otherwise the first failure. */
  lemma {:induction false} SinglesReportTheFirst(i: Iop, es: seq<Entry>, ws: seq<Weather>, n: nat)
    requires IopShape(i)
    ensures var rc := Singles(i, es, ws, n).1;
            && rc <= 0
            && (rc == 0 ==> forall k | 0 <= k < |es| :: Code(i, es, ws, n, k) == 0)
            && (rc < 0 ==> exists k: nat :: FailsFirst(i, es, ws, n, k) && rc == Code(i, es, ws, n, k))
    decreases |es|
  {
    hide CallSingle;
    if es != [] {
      var (m, rc) := CallSingle(i, es[0], Forecast(ws, n));
      CallIsNotPositive(i, es[0], Forecast(ws, n));
      assert Code(i, es, ws, n, 0) == rc;
      if rc < 0 {
        assert FailsFirst(i, es, ws, n, 0);
      } else {
        SinglesReportTheFirst(m, es[1..], ws, n + 1);
        assert forall k | 0 < k < |es| :: Code(i, es, ws, n, k) == Code(m, es[1..], ws, n + 1, k - 1);
        if Singles(m, es[1..], ws, n + 1).1 < 0 {
          var k: nat :| FailsFirst(m, es[1..], ws, n + 1, k)
            && Singles(m, es[1..], ws, n + 1).1 == Code(m, es[1..], ws, n + 1, k);
          assert Code(i, es, ws, n, k + 1) == Code(m, es[1..], ws, n + 1, k);
          assert FailsFirst(i, es, ws, n, k + 1);
        }
      }
    }
  }

  ghost predicate FailsFirst(i: Iop, es: seq<Entry>, ws: seq<Weather>, n: nat, k: nat)
    requires IopShape(i)
  {
    k < |es| && Code(i, es, ws, n, k) < 0 && forall j | 0 <= j < k :: Code(i, es, ws, n, j) == 0
  }

  lemma CallIsNotPositive(i: Iop, e: Entry, w: Weather)
    requires IopShape(i)
    ensures IopShape(CallSingle(i, e, w).0) && CallSingle(i, e, w).1 <= 0
  {
    hide PumpAll;
  }

  /** A send says what became of the frame. -2: it is shorter than 14 bytes, longer than 1518 or does not fit
      a slot, and nothing changed. -6: the queue was full and flushing it failed. -3: every slot is taken.
      -4: the bytes could not be written. Only 0 means that the frame is staged, as the newest. */
  lemma SendMeans(s: Smap, frame: Frame, env: Env)
    requires Shape(s)
    ensures var (t, rc) := Send(s, frame, env);
            && rc in {0, -2, -3, -4, -6}
            && (rc == -2 <==> |frame| < 14 || |frame| > 1518 || |frame| > s.slotSize)
            && (rc == -2 ==> t == s)
            && (rc == -6 <==> Sized(s, frame) && |s.pending| == 8 && Flush(s, env.first).1 < 0)
            && (rc == -3 ==> forall k | 0 <= k < t.slotCount :: t.claimed[k] || t.iop.busy[k])
            && (rc == -4 ==> !env.written) && (rc == 0 ==> env.written)
            && t.frames == (if rc == 0 then s.frames + [frame] else s.frames)
  {
    hide Flush, Place;
    if Sendable(s, frame) {
      FlushLeavesFrames(s, env.first);
      if |s.pending| < SUBMIT_BATCH_MAX {
        PlaceMeans(s, frame, env);
      } else {
        PlaceMeans(Flush(s, env.first).0, frame, env);
      }
    }
  }

  predicate Sized(s: Smap, frame: Frame) {
    14 <= |frame| <= 1518 && |frame| <= s.slotSize
  }

  lemma FlushLeavesFrames(s: Smap, ws: seq<Weather>)
    requires Shape(s)
    ensures Flush(s, ws).0.frames == s.frames && Flush(s, ws).0.slotCount == s.slotCount
  {
    hide Delivered;
  }

  lemma PlaceMeans(s: Smap, frame: Frame, env: Env)
    requires Shape(s) && |s.pending| < SUBMIT_BATCH_MAX
    ensures var (t, rc) := Place(s, frame, env);
            && rc in {0, -3, -4}
            && (rc == -3 ==> forall k | 0 <= k < t.slotCount :: t.claimed[k] || t.iop.busy[k])
            && (rc == -4 ==> !env.written) && (rc == 0 ==> env.written)
            && t.frames == (if rc == 0 then s.frames + [frame] else s.frames)
  {
    hide Flush, Wait, SendInto, ScanFree;
    if ScanFree(s) < s.slotCount {
      SendIntoMeans(s, ScanFree(s), frame, env);
    } else {
      var f := Flush(s, env.full).0;
      FlushLeavesFrames(s, env.full);
      WaitMeans(f, env.bursts);
      var (w, slot) := Wait(f, env.bursts);
      if slot < w.slotCount {
        SendIntoMeans(w, slot, frame, env);
      }
    }
  }

  lemma SendIntoMeans(s: Smap, slot: nat, frame: Frame, env: Env)
    requires Shape(s) && slot < s.slotCount && |s.pending| < SUBMIT_BATCH_MAX
    ensures var (t, rc) := SendInto(s, slot, frame, env);
            rc == (if env.written then 0 else -4) && t.frames == (if rc == 0 then s.frames + [frame] else s.frames)
  {
    hide Flush;
    var t := Stage(Stored(s.(next := SlotAfter(slot, s.slotCount)), slot, frame + env.padding), slot, frame);
    FlushLeavesFrames(t, env.last);
  }

  lemma {:induction false} WaitMeans(s: Smap, bursts: seq<seq<Turn>>)
    requires Shape(s)
    ensures var (w, slot) := Wait(s, bursts);
            && w.frames == s.frames && w.slotCount == s.slotCount
            && (slot >= w.slotCount ==> forall k | 0 <= k < w.slotCount :: w.claimed[k] || w.iop.busy[k])
    decreases |bursts|
  {
    hide PumpAll, ScanFree;
    ScanFindsTheFirst(s);
    if ScanFree(s) < s.slotCount || bursts == [] {
      forall k | 0 <= k < s.slotCount
        ensures ScanFree(s) >= s.slotCount ==> s.claimed[k] || s.iop.busy[k]
      {
        assert Ahead(s.next, k, s.slotCount) < s.slotCount;
      }
    } else {
      WaitMeans(s.(iop := PumpAll(s.iop, bursts[0])), bursts[1..]);
    }
  }

  // ---------------------------------------------------------------- where accepted frames are

  /** Frame a went out, or waits in a BUSY slot. */
  ghost predicate OnTheWay(i: Iop, a: nat)
    requires IopShape(i)
  {
    || (exists w :: 0 <= w < |i.wire| && i.wire[w].0 == a)
    || exists k :: 0 <= k < TX_SLOTS && i.busy[k] && i.holder[k] == a
  }

  /** Every BUSY slot holds bytes that fit the wire, and every accepted frame is on its way. */
  ghost predicate Sound(i: Iop) {
    && IopShape(i)
    && (forall k | 0 <= k < TX_SLOTS && i.busy[k] :: 14 <= i.lens[k] <= 1514 && i.lens[k] <= |i.data[k]|)
    && (forall a | a in i.accepted :: OnTheWay(i, a))
  }

  ghost predicate Smooth(ts: seq<Turn>) {
    forall k | 0 <= k < |ts| :: !ts[k].stalled
  }

  ghost predicate AllSmooth(ws: seq<Weather>) {
    forall k | 0 <= k < |ws| :: Smooth(ws[k].before)
  }

  /** An entry whose bytes are in its slot and fit the wire. */
  ghost predicate Fits(i: Iop, e: Entry)
    requires IopShape(i)
  {
    e.slot < TX_SLOTS && 14 <= e.len <= 1514 && e.len <= |i.data[e.slot]|
  }

  ghost predicate AllFit(i: Iop, es: seq<Entry>)
    requires IopShape(i)
  {
    forall k | 0 <= k < |es| :: Fits(i, es[k])
  }

  lemma TurnKeepsSound(i: Iop, t: Turn)
    requires Sound(i) && !t.stalled
    ensures Sound(Pump(i, t)) && Pump(i, t).data == i.data
  {
    var p := Pump(i, t);
    forall a | a in p.accepted
      ensures OnTheWay(p, a)
    {
      assert OnTheWay(i, a);
      if w :| 0 <= w < |i.wire| && i.wire[w].0 == a {
        assert p.wire[w].0 == a;
      } else {
        var k :| 0 <= k < TX_SLOTS && i.busy[k] && i.holder[k] == a;
        if k == t.slot {
          assert p.wire[|i.wire|].0 == a;
        } else {
          assert p.busy[k] && p.holder[k] == a;
        }
      }
    }
  }

  lemma {:induction false} TurnsKeepSound(i: Iop, ts: seq<Turn>)
    requires Sound(i) && Smooth(ts)
    ensures Sound(PumpAll(i, ts)) && PumpAll(i, ts).data == i.data
    decreases |ts|
  {
    if ts != [] {
      TurnKeepsSound(i, ts[0]);
      TurnsKeepSound(Pump(i, ts[0]), ts[1..]);
    }
  }

  /** An accepted entry makes its slot BUSY with its own frame. */
  lemma AcceptKeepsSound(i: Iop, e: Entry)
    requires Sound(i) && Fits(i, e) && !i.busy[e.slot]
    ensures Sound(Accept(i, e)) && Accept(i, e).data == i.data
  {
    var r := Accept(i, e);
    assert r.busy[e.slot] && r.holder[e.slot] == e.id;
    forall a | a in r.accepted
      ensures OnTheWay(r, a)
    {
      if a in i.accepted {
        assert OnTheWay(i, a);
        if w :| 0 <= w < |i.wire| && i.wire[w].0 == a {
          assert r.wire[w].0 == a;
        } else {
          var k :| 0 <= k < TX_SLOTS && i.busy[k] && i.holder[k] == a;
          assert r.busy[k] && r.holder[k] == a;
        }
      } else {
        assert a == e.id;
      }
    }
  }

  lemma {:induction false} AllAcceptedKeepSound(i: Iop, es: seq<Entry>)
    requires Sound(i) && AllFit(i, es) && Apart(es) && forall k | 0 <= k < |es| :: !i.busy[es[k].slot]
    ensures Sound(AcceptAll(i, es)) && AcceptAll(i, es).data == i.data
    decreases |es|
  {
    hide Sound;
    SoundShape(i);
    if es != [] {
      assert Fits(i, es[0]);
      AcceptKeepsSound(i, es[0]);
      var r := Accept(i, es[0]);
      forall k | 0 <= k < |es[1..]|
        ensures Fits(r, es[1..][k]) && !r.busy[es[1..][k].slot]
      {
        assert es[1..][k] == es[k + 1] && Fits(i, es[k + 1]);
      }
      AllAcceptedKeepSound(r, es[1..]);
    }
  }

  lemma SingleKeepsSound(i: Iop, e: Entry, w: Weather)
    requires Sound(i) && Fits(i, e) && Smooth(w.before)
    ensures Sound(CallSingle(i, e, w).0) && CallSingle(i, e, w).0.data == i.data
  {
    hide Sound, Accept, PumpAll;
    SoundShape(i);
    TurnsKeepSound(i, w.before);
    var p := PumpAll(i, w.before);
    assert Fits(p, e);
    if Check(p, e) == RC_OK {
      AcceptKeepsSound(p, e);
    }
  }

  lemma {:induction false} SinglesKeepSound(i: Iop, es: seq<Entry>, ws: seq<Weather>, n: nat)
    requires Sound(i) && AllFit(i, es) && AllSmooth(ws)
    ensures Sound(Singles(i, es, ws, n).0) && Singles(i, es, ws, n).0.data == i.data
    decreases |es|
  {
    hide Sound, CallSingle;
    SoundShape(i);
    if es != [] {
      assert Fits(i, es[0]) && Smooth(Forecast(ws, n).before);
      SingleKeepsSound(i, es[0], Forecast(ws, n));
      var m := CallSingle(i, es[0], Forecast(ws, n)).0;
      SoundShape(m);
      assert forall k | 0 <= k < |es[1..]| :: es[1..][k] == es[k + 1] && Fits(i, es[k + 1]);
      SinglesKeepSound(m, es[1..], ws, n + 1);
    }
  }

  lemma SoundShape(i: Iop)
    requires Sound(i)
    ensures IopShape(i)
  {
  }

  lemma BatchKeepsSound(i: Iop, es: seq<Entry>, w: Weather)
    requires Sound(i) && AllFit(i, es) && Apart(es) && Smooth(w.before)
    ensures Sound(CallBatch(i, es, w).0) && CallBatch(i, es, w).0.data == i.data
  {
    hide Sound, AcceptAll, PumpAll;
    SoundShape(i);
    TurnsKeepSound(i, w.before);
    var p := PumpAll(i, w.before);
    SoundShape(p);
    assert forall k | 0 <= k < |es| :: Fits(i, es[k]) && Fits(p, es[k]);
    if FirstBad(p, es) == RC_OK {
      assert forall k | 0 <= k < |es| :: Check(p, es[k]) == RC_OK;
      AllAcceptedKeepSound(p, es);
    }
  }

  lemma DeliveryKeepsSound(i: Iop, es: seq<Entry>, ws: seq<Weather>)
    requires Sound(i) && AllFit(i, es) && Apart(es) && AllSmooth(ws)
    ensures Sound(Delivered(i, es, ws).0) && Delivered(i, es, ws).0.data == i.data
  {
    hide Sound, CallBatch, Singles;
    SoundShape(i);
    assert Smooth(Forecast(ws, 0).before);
    BatchKeepsSound(i, es, Forecast(ws, 0));
    var n := CallBatch(i, es, Forecast(ws, 0)).0;
    SoundShape(n);
    assert forall k | 0 <= k < |es| :: Fits(i, es[k]) && Fits(n, es[k]);
    SinglesKeepSound(n, es, ws, 1);
  }

  // ---------------------------------------------------------------- every step

  ghost predicate Good(s: Smap) {
    Inv(s) && Sound(s.iop) && forall k | 0 <= k < |s.frames| :: |s.frames[k]| <= 1514
  }

  lemma GoodShape(s: Smap)
    requires Good(s)
    ensures Shape(s)
  {
  }

  /** No turn of the pump in it is stalled, and its frame fits the wire. */
  ghost predicate SmoothStep(step: Step) {
    match step
    case DoSend(frame, env) =>
      && |frame| <= 1514 && AllSmooth(env.first) && AllSmooth(env.full) && AllSmooth(env.last)
      && forall k | 0 <= k < |env.bursts| :: Smooth(env.bursts[k])
    case DoFlush(ws) => AllSmooth(ws)
    case DoPump(turns) => Smooth(turns)
  }

  lemma FlushKeepsGood(s: Smap, ws: seq<Weather>)
    requires Good(s) && AllSmooth(ws)
    ensures Good(Flush(s, ws).0)
  {
    hide Sound, Delivered;
    FlushKeeps(s, ws);
    if s.pending != [] {
      forall k | 0 <= k < |s.pending|
        ensures Fits(s.iop, s.pending[k])
      {
        assert Staged(s.iop, s.frames, s.pending[k]);
      }
      DeliveryKeepsSound(s.iop, s.pending, ws);
    }
  }

  lemma PumpKeepsGood(s: Smap, ts: seq<Turn>)
    requires Good(s) && Smooth(ts)
    ensures Good(s.(iop := PumpAll(s.iop, ts)))
  {
    hide Sound;
    PumpAllKeeps(s.iop, ts, s.frames);
    PumpKeepsStaged(s.iop, ts, s.frames, s.pending);
    TurnsKeepSound(s.iop, ts);
  }

  lemma {:induction false} WaitKeepsGood(s: Smap, bursts: seq<seq<Turn>>)
    requires Good(s) && forall k | 0 <= k < |bursts| :: Smooth(bursts[k])
    ensures Good(Wait(s, bursts).0)
    decreases |bursts|
  {
    hide Good, PumpAll, ScanFree;
    GoodShape(s);
    if ScanFree(s) >= s.slotCount && bursts != [] {
      PumpKeepsGood(s, bursts[0]);
      WaitKeepsGood(s.(iop := PumpAll(s.iop, bursts[0])), bursts[1..]);
    }
  }

  lemma StoredKeepsSound(s: Smap, slot: nat, bytes: Frame)
    requires Shape(s) && Sound(s.iop) && slot < s.slotCount && !s.iop.busy[slot]
    ensures Sound(Stored(s, slot, bytes).iop)
  {
    var t := Stored(s, slot, bytes);
    forall a | a in t.iop.accepted
      ensures OnTheWay(t.iop, a)
    {
      assert OnTheWay(s.iop, a);
    }
  }

  lemma StoredKeepsGood(s: Smap, slot: nat, bytes: Frame)
    requires Good(s) && slot < s.slotCount && !s.claimed[slot] && !s.iop.busy[slot]
    ensures Good(Stored(s.(next := SlotAfter(slot, s.slotCount)), slot, bytes))
  {
    hide Inv, Sound;
    GoodShape(s);
    NextKeeps(s, SlotAfter(slot, s.slotCount));
    StoringKeeps(s.(next := SlotAfter(slot, s.slotCount)), slot, bytes);
    StoredKeepsSound(s.(next := SlotAfter(slot, s.slotCount)), slot, bytes);
  }

  lemma StagedKeepsGood(s: Smap, slot: nat, frame: Frame)
    requires Good(s) && slot < s.slotCount && |s.pending| < SUBMIT_BATCH_MAX && !s.claimed[slot] && !s.iop.busy[slot]
    requires frame <= s.iop.data[slot] && 14 <= |frame| <= 1514
    ensures Good(Stage(s, slot, frame))
  {
    hide Inv, Sound;
    StagingKeeps(s, slot, frame);
  }

  lemma SendIntoKeepsGood(s: Smap, slot: nat, frame: Frame, env: Env)
    requires Good(s) && slot < s.slotCount && |s.pending| < SUBMIT_BATCH_MAX && !s.claimed[slot] && !s.iop.busy[slot]
    requires 14 <= |frame| <= 1514 && AllSmooth(env.last)
    ensures Good(SendInto(s, slot, frame, env).0)
  {
    hide Good, Flush;
    GoodShape(s);
    var m := s.(next := SlotAfter(slot, s.slotCount));
    StoredKeepsGood(s, slot, env.padding);
    StoredKeepsGood(s, slot, frame + env.padding);
    var d := Stored(m, slot, frame + env.padding);
    assert frame <= d.iop.data[slot];
    StagedKeepsGood(d, slot, frame);
    FlushKeepsGood(Stage(d, slot, frame), env.last);
  }

  lemma PlaceKeepsGood(s: Smap, frame: Frame, env: Env)
    requires Good(s) && |s.pending| < SUBMIT_BATCH_MAX && 14 <= |frame| && SmoothStep(DoSend(frame, env))
    ensures Good(Place(s, frame, env).0)
  {
    hide Good, Flush, Wait, SendInto, ScanFree;
    GoodShape(s);
    if ScanFree(s) < s.slotCount {
      SendIntoKeepsGood(s, ScanFree(s), frame, env);
    } else {
      FlushKeepsGood(s, env.full);
      var f := Flush(s, env.full).0;
      WaitKeepsGood(f, env.bursts);
      var (w, slot) := Wait(f, env.bursts);
      if slot < w.slotCount {
        SendIntoKeepsGood(w, slot, frame, env);
      }
    }
  }

  lemma StepKeepsGood(s: Smap, step: Step)
    requires Good(s) && SmoothStep(step)
    ensures Good(Next(s, step))
  {
    hide Good, Flush, Place;
    GoodShape(s);
    match step {
      case DoSend(frame, env) =>
        if Sendable(s, frame) {
          if |s.pending| < SUBMIT_BATCH_MAX {
            PlaceKeepsGood(s, frame, env);
          } else {
            FlushKeepsGood(s, env.first);
            PlaceKeepsGood(Flush(s, env.first).0, frame, env);
          }
        }
      case DoFlush(ws) => FlushKeepsGood(s, ws);
      case DoPump(turns) => PumpKeepsGood(s, turns);
    }
  }

  lemma {:induction false} RunKeepsGood(s: Smap, steps: seq<Step>)
    requires Good(s) && forall k | 0 <= k < |steps| :: SmoothStep(steps[k])
    ensures Good(Run(s, steps))
    decreases |steps|
  {
    hide Good, Next, SmoothStep;
    GoodShape(s);
    if steps != [] {
      StepKeepsGood(s, steps[0]);
      RunKeepsGood(Next(s, steps[0]), steps[1..]);
    }
  }

  // ---------------------------------------------------------------- the whole way

  /** One turn for every slot. */
  function Round(): (ts: seq<Turn>)
    ensures |ts| == TX_SLOTS && forall k | 0 <= k < TX_SLOTS :: ts[k] == Turn(k, false)
  {
    seq(TX_SLOTS, k requires 0 <= k => Turn(k, false))
  }

  lemma {:induction false} TurnsFree(i: Iop, ts: seq<Turn>, k: nat)
    requires IopShape(i) && k < TX_SLOTS && (!i.busy[k] || exists j :: 0 <= j < |ts| && ts[j].slot == k)
    ensures !PumpAll(i, ts).busy[k] && PumpAll(i, ts).accepted == i.accepted
    decreases |ts|
  {
    if ts != [] {
      var p := Pump(i, ts[0]);
      if p.busy[k] {
        var j :| 0 <= j < |ts| && ts[j].slot == k;
        assert j > 0 && ts[1..][j - 1].slot == k;
      }
      TurnsFree(p, ts[1..], k);
    }
  }

  /** Over every run in which the pump is never stalled and every frame fits the wire, whatever calls get lost:
      each accepted frame has gone out or waits in a BUSY slot, and after one more round of the pump every
      accepted frame is on the wire, byte for byte. */
  lemma AcceptedFramesGoOut(slotCount: nat, slotSize: nat, steps: seq<Step>, a: nat)
    requires slotCount <= TX_SLOTS && forall k | 0 <= k < |steps| :: SmoothStep(steps[k])
    requires a in Run(Initialised(slotCount, slotSize), steps).iop.accepted
    ensures var t := Run(Initialised(slotCount, slotSize), steps);
            && OnTheWay(t.iop, a) && a < |t.frames|
            && (a, t.frames[a]) in PumpAll(t.iop, Round()).wire
  {
    hide Run, Initialised, PumpAll, Round;
    InitialisedGood(slotCount, slotSize);
    RunKeepsGood(Initialised(slotCount, slotSize), steps);
    RoundSendsAll(Run(Initialised(slotCount, slotSize), steps), a);
  }

  lemma InitialisedGood(slotCount: nat, slotSize: nat)
    requires slotCount <= TX_SLOTS
    ensures Good(Initialised(slotCount, slotSize))
  {
  }

  lemma RoundSendsAll(t: Smap, a: nat)
    requires Good(t) && a in t.iop.accepted
    ensures OnTheWay(t.iop, a) && a < |t.frames| && (a, t.frames[a]) in PumpAll(t.iop, Round()).wire
  {
    hide PumpAll;
    var r := PumpAll(t.iop, Round());
    TurnsKeepSound(t.iop, Round());
    PumpAllKeeps(t.iop, Round(), t.frames);
    forall k | 0 <= k < TX_SLOTS
      ensures !r.busy[k]
    {
      assert Round()[k].slot == k;
      TurnsFree(t.iop, Round(), k);
    }
    assert a in r.accepted && OnTheWay(r, a);
    var w :| 0 <= w < |r.wire| && r.wire[w].0 == a;
    assert r.wire[w] == (a, t.frames[a]);
  }
}
