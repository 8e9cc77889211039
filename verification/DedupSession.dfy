/**
 A whole session: a guest that numbers its requests and may repeat them, a network that may
 lose, duplicate, reorder and delay packets both ways, and the host behind its cache.
 */
module DedupSession {
  import opened Bytes
  import opened DedupCache
  import opened DedupHost
  import opened DedupArrivals

  /** The number the guest's counter gives its `k`-th request: 1, 2, ... and never 0. */
  function SeqOf(k: nat): u32 {
    1 + k % 0xffff_ffff
  }

  function CounterAfter(s: u32): u32 {
    if Wrap32(s + 1) == 0 then 1 else Wrap32(s + 1)
  }

  lemma CounterCounts(k: nat)
    ensures SeqOf(0) == 1 && SeqOf(k + 1) == CounterAfter(SeqOf(k))
  {
    if SeqOf(k) == 0xffff_ffff {
      assert (k + 1) % 0xffff_ffff == 0;
    } else {
      assert (k + 1) % 0xffff_ffff == k % 0xffff_ffff + 1;
    }
  }

  /** How many requests apart a packet and the newest dispatch may be for their order to show. */
  const WINDOW := 0x7fff_fffe

  lemma SeqOrder(k: nat, l: nat)
    requires -WINDOW <= k - l <= WINDOW
    ensures k > l <==> Newer(SeqOf(k), SeqOf(l))
    ensures k == l <==> SeqOf(k) == SeqOf(l)
  {
    var m := 0xffff_ffff;
    var a, b := k / m, l / m;
    assert k == m * a + k % m && l == m * b + l % m;
    assert a - b <= 1 && b - a <= 1;
    assert a == b || a == b + 1 || b == a + 1;
  }

  lemma SameSeqSameRequest(k: nat, l: nat)
    requires k <= l < k + 0xffff_ffff && SeqOf(k) == SeqOf(l)
    ensures k == l
  {
    var m := 0xffff_ffff;
    assert k == m * (k / m) + k % m && l == m * (l / m) + l % m;
    assert l - k == m * (l / m - k / m);
  }

  // ---------------------------------------------------------------- the guest

  /** Request number `k` on the wire; a retransmit is the same bytes again. */
  function RequestPacket(payload: Packet, k: nat): Packet {
    payload + Trailer(SeqOf(k))
  }

  /** `cmd_retval` while request `current` is the latest one. */
  predicate AcceptsRetval(current: u32, pkt: Packet) {
    && |pkt| >= COMMAND_LEN && pkt[..4] == CMD_RETVAL
    && (|pkt| >= COMMAND_LEN + NET_SEQ_TRAILER_LEN && ExtractSeq(pkt).Some? ==> ExtractSeq(pkt).value == current)
  }

  /** A RETVAL is turned down exactly if it ends in the magic and another request's number. */
  lemma AcceptsExactly(current: u32, pkt: Packet)
    ensures AcceptsRetval(current, pkt)
            <==> && |pkt| >= 12 && pkt[..4] == [0x52, 0x45, 0x54, 0x56]
                 && !(|pkt| >= 20 && pkt[|pkt| - 8..|pkt| - 4] == [0x4b, 0x53, 0x51, 0x30]
                      && FromBE32(pkt[|pkt| - 4..]) != current)
  {
    TrailerExactly(pkt, current);
    if |pkt| >= 20 {
      TrailerSplit(pkt);
    }
  }

  lemma TrailerSplit(pkt: Packet)
    requires |pkt| >= 8
    ensures pkt[|pkt| - 8..][..4] == pkt[|pkt| - 8..|pkt| - 4] && pkt[|pkt| - 8..][4..] == pkt[|pkt| - 4..]
  {
  }

  /** The number the guest's system call returns. */
  function RetvalOf(pkt: Packet): u32
    requires |pkt| >= COMMAND_LEN
  {
    FromBE32(pkt[4..8])
  }

  // ---------------------------------------------------------------- the system

  /** A reply on the network, tagged with the request that made the host send it. */
  datatype Mail = Mail(k: nat, pkt: Packet)

  /** `issued` are the guest's request payloads; `ran[i]` is the request behind `host.log[i]`;
      `replies` is everything the host ever put on the wire; `accepted` the RETVALs the guest
      took, each tagged with the request it took it for. */
  datatype Session = Session(issued: seq<Packet>, host: Host, ran: seq<nat>, replies: set<Mail>, accepted: seq<Mail>)

  datatype Step =
    | Issue(payload: Packet)
    | Arrive(k: nat, now: u64, handler: seq<Send>)  // request k reaches the host: again, late, or never
    | Return(mail: Mail)                            // a reply reaches the guest: likewise

  function ArrivalOf(s: Session, step: Step): Arrival
    requires step.Arrive? && step.k < |s.issued|
  {
    Arrival(RequestPacket(s.issued[step.k], step.k), step.now, step.handler)
  }

  ghost predicate SendsOk(sends: seq<Send>) {
    forall i | 0 <= i < |sends| :: SendOk(sends[i])
  }

  /** The network only carries what was sent, and forgets a packet before the 32-bit numbers
      come round again. */
  ghost predicate Enabled(s: Session, step: Step) {
    match step
    case Issue(_) => true
    case Arrive(k, _, handler) =>
      && k < |s.issued| && SendsOk(handler)
      && (s.ran != [] ==> -WINDOW <= k - s.ran[|s.ran| - 1] <= WINDOW)
    case Return(mail) => mail in s.replies && |s.issued| <= mail.k + 0xffff_ffff
  }

  function Emitted(d: Action): seq<Packet> {
    match d
    case Replayed(ps) => ps
    case Ran(s, sends) => Wires(sends, true, s)
    case RanLegacy(sends) => Wires(sends, false, 0)
    case _ => []
  }

  function Tagged(k: nat, ps: seq<Packet>): set<Mail> {
    set p | p in ps :: Mail(k, p)
  }

  predicate Shape(s: Session) {
    CacheOk(s.host.cache)
  }

  function Next(s: Session, step: Step): (r: Session)
    requires Shape(s)
    ensures Shape(r)
  {
    match step
    case Issue(payload) => s.(issued := s.issued + [payload])
    case Arrive(k, _, _) =>
      if k >= |s.issued| then s
      else
        var d := Decide(s.host, ArrivalOf(s, step));
        s.(host := Receive(s.host, ArrivalOf(s, step)), ran := if d.Ran? then s.ran + [k] else s.ran,
           replies := s.replies + Tagged(k, Emitted(d)))
    case Return(mail) =>
      if s.issued != [] && AcceptsRetval(SeqOf(|s.issued| - 1), mail.pkt)
      then s.(accepted := s.accepted + [Mail(|s.issued| - 1, mail.pkt)])
      else s
  }

  function Start(): (s: Session)
    ensures Shape(s)
  {
    Session([], Boot(), [], {}, [])
  }

  // ---------------------------------------------------------------- the invariant

  ghost predicate LogMatches(s: Session) {
    && |s.ran| == |s.host.log|
    && (forall i | 0 <= i < |s.ran| :: s.ran[i] < |s.issued| && s.host.log[i].s == SeqOf(s.ran[i]))
    && (forall i | 0 <= i < |s.ran| :: SendsOk(s.host.log[i].sends))
  }

  /** Each request is dispatched at most once, and they are dispatched in the order issued. */
  ghost predicate Once(s: Session) {
    forall i, j | 0 <= i < j < |s.ran| :: s.ran[i] < s.ran[j]
  }

  /** A packet the host sent for request k: one of those its one dispatch of k produced. */
  ghost predicate FromDispatch(s: Session, m: Mail) {
    exists i :: 0 <= i < |s.ran| && |s.host.log| == |s.ran| && s.ran[i] == m.k
                && m.pkt in Wires(s.host.log[i].sends, true, SeqOf(m.k))
  }

  ghost predicate IsResult(sends: seq<Send>, pkt: Packet) {
    |pkt| >= COMMAND_LEN && exists send ::
        send in sends && send.Reply? && send.cmd == CMD_RETVAL && send.addr == RetvalOf(pkt)
  }

  ghost predicate TrueResult(s: Session, m: Mail) {
    exists i :: 0 <= i < |s.ran| && |s.host.log| == |s.ran| && s.ran[i] == m.k
                && m.pkt in Wires(s.host.log[i].sends, true, SeqOf(m.k)) && IsResult(s.host.log[i].sends, m.pkt)
  }

  ghost predicate Honest(s: Session) {
    && (forall m | m in s.replies :: FromDispatch(s, m))
    && (forall m | m in s.accepted :: TrueResult(s, m))
  }

  ghost predicate Inv(s: Session) {
    Shape(s) && HostOk(s.host) && InOrder(s.host.log) && LogMatches(s) && Once(s) && Honest(s)
  }

  // ---------------------------------------------------------------- replies

  lemma RequestCarriesItsNumber(payload: Packet, k: nat)
    ensures ExtractSeq(RequestPacket(payload, k)) == Some(SeqOf(k))
  {
    TrailerIsExtracted(payload, SeqOf(k));
  }

  /** Every RETVAL of a dispatch ends with the dispatch's number and starts with its result. */
  lemma RetvalWire(send: Send, s: u32)
    requires SendOk(send) && |Wire(send, true, s)| >= 4 && Wire(send, true, s)[..4] == CMD_RETVAL
    ensures send.Reply? && send.cmd == CMD_RETVAL
    ensures var w := Wire(send, true, s);
            |w| >= COMMAND_LEN + NET_SEQ_TRAILER_LEN && ExtractSeq(w) == Some(s) && RetvalOf(w) == send.addr
  {
    var w := Wire(send, true, s);
    assert w[..4] == send.cmd;
    var head := send.cmd + BE32(send.addr) + BE32(send.size);
    var body := w[..|w| - NET_SEQ_TRAILER_LEN];
    assert w == body + Trailer(s);
    TrailerIsExtracted(body, s);
    assert w[4..8] == BE32(send.addr);
    BE32RoundTrip(send.addr);
  }

  lemma KeptWasSent(sends: seq<Send>, s: u32)
    ensures forall p | p in Kept(OfferedWires(sends, s), DEDUP_MAX_PACKETS) :: p in Wires(sends, true, s)
  {
  }

  lemma DispatchStays(s: Session, t: Session, m: Mail)
    requires s.ran <= t.ran && s.host.log <= t.host.log && |t.ran| == |t.host.log|
    ensures FromDispatch(s, m) ==> FromDispatch(t, m)
    ensures TrueResult(s, m) ==> TrueResult(t, m)
  {
    hide Wires, IsResult;
    if FromDispatch(s, m) {
      var i :| 0 <= i < |s.ran| && |s.host.log| == |s.ran| && s.ran[i] == m.k
               && m.pkt in Wires(s.host.log[i].sends, true, SeqOf(m.k));
      assert t.ran[i] == m.k && t.host.log[i] == s.host.log[i];
    }
    if TrueResult(s, m) {
      var i :| 0 <= i < |s.ran| && |s.host.log| == |s.ran| && s.ran[i] == m.k
               && m.pkt in Wires(s.host.log[i].sends, true, SeqOf(m.k)) && IsResult(s.host.log[i].sends, m.pkt);
      assert t.ran[i] == m.k && t.host.log[i] == s.host.log[i];
    }
  }

  // ---------------------------------------------------------------- steps

  lemma ArriveKeepsLog(s: Session, step: Step)
    requires Inv(s) && step.Arrive? && Enabled(s, step)
    ensures var t := Next(s, step);
            && s.ran <= t.ran && s.host.log <= t.host.log
            && HostOk(t.host) && InOrder(t.host.log) && LogMatches(t) && Once(t)
  {
    hide HostOk, CacheOk, InOrder, Honest, SendOk, SendsOk, Newer, SeqOf, CacheAfter, ExtractSeq, RequestPacket,
        Emitted, Tagged, AcceptsRetval;
    var a := ArrivalOf(s, step);
    RequestCarriesItsNumber(s.issued[step.k], step.k);
    ReceiveKeepsHost(s.host, a);
    if Decide(s.host, a).Ran? {
      RanIsNewer(s, step);
    }
  }

  lemma RanIsNewer(s: Session, step: Step)
    requires Inv(s) && step.Arrive? && Enabled(s, step) && Decide(s.host, ArrivalOf(s, step)).Ran?
    ensures s.ran != [] ==> s.ran[|s.ran| - 1] < step.k
    ensures Decide(s.host, ArrivalOf(s, step)) == Ran(SeqOf(step.k), step.handler)
  {
    RequestCarriesItsNumber(s.issued[step.k], step.k);
    if s.ran != [] {
      assert Last(s.host.log).s == SeqOf(s.ran[|s.ran| - 1]);
      SeqOrder(step.k, s.ran[|s.ran| - 1]);
    }
  }

  lemma ReplayIsOfThatRequest(s: Session, step: Step)
    requires Inv(s) && step.Arrive? && Enabled(s, step) && Decide(s.host, ArrivalOf(s, step)).Replayed?
    ensures s.ran != [] && s.ran[|s.ran| - 1] == step.k
    ensures forall p | p in Decide(s.host, ArrivalOf(s, step)).sent ::
            p in Wires(Last(s.host.log).sends, true, SeqOf(step.k))
  {
    RequestCarriesItsNumber(s.issued[step.k], step.k);
    assert Last(s.host.log).s == SeqOf(s.ran[|s.ran| - 1]);
    SeqOrder(step.k, s.ran[|s.ran| - 1]);
    KeptWasSent(Last(s.host.log).sends, SeqOf(step.k));
  }

  lemma EmittedIsFromDispatch(s: Session, step: Step, p: Packet)
    requires Inv(s) && step.Arrive? && Enabled(s, step) && p in Emitted(Decide(s.host, ArrivalOf(s, step)))
    ensures FromDispatch(Next(s, step), Mail(step.k, p))
  {
    hide HostOk, CacheOk, InOrder, Honest, SendOk, SendsOk, Newer, SeqOf, CacheAfter, Wires, ExtractSeq,
        RequestPacket, AcceptsRetval, Tagged;
    var t := Next(s, step);
    RequestCarriesItsNumber(s.issued[step.k], step.k);
    ArriveKeepsLog(s, step);
    if Decide(s.host, ArrivalOf(s, step)).Ran? {
      RanIsNewer(s, step);
      assert t.ran[|t.ran| - 1] == step.k;
      assert p in Wires(t.host.log[|t.ran| - 1].sends, true, SeqOf(step.k));
    } else {
      assert Decide(s.host, ArrivalOf(s, step)).Replayed?;
      ReplayIsOfThatRequest(s, step);
      assert t.ran[|t.ran| - 1] == step.k;
      assert t.host.log[|t.ran| - 1] == Last(s.host.log);
    }
  }

  lemma ArriveKeeps(s: Session, step: Step)
    requires Inv(s) && step.Arrive? && Enabled(s, step)
    ensures Inv(Next(s, step))
  {
    hide HostOk, CacheOk, InOrder, SendOk, Once, FromDispatch, TrueResult, Receive, Emitted, Decide;
    var t := Next(s, step);
    ArriveKeepsLog(s, step);
    forall m | m in t.replies
      ensures FromDispatch(t, m)
    {
      if m in s.replies {
        DispatchStays(s, t, m);
      } else {
        EmittedIsFromDispatch(s, step, m.pkt);
      }
    }
    forall m | m in t.accepted
      ensures TrueResult(t, m)
    {
      DispatchStays(s, t, m);
    }
  }

  /** What the guest takes for an answer is the answer of the request it is waiting on. */
  lemma AcceptedIsTrue(s: Session, mail: Mail)
    requires Inv(s) && Enabled(s, Return(mail))
    requires s.issued != [] && AcceptsRetval(SeqOf(|s.issued| - 1), mail.pkt)
    ensures mail.k == |s.issued| - 1 && TrueResult(s, mail)
  {
    hide HostOk, CacheOk, InOrder, Once, Wire, SendOk, SeqOf, RetvalOf, ExtractSeq;
    assert FromDispatch(s, mail);
    var i :| 0 <= i < |s.ran| && |s.host.log| == |s.ran| && s.ran[i] == mail.k
             && mail.pkt in Wires(s.host.log[i].sends, true, SeqOf(mail.k));
    var sends := s.host.log[i].sends;
    var j :| 0 <= j < |sends| && Wires(sends, true, SeqOf(mail.k))[j] == mail.pkt;
    assert SendOk(sends[j]);
    RetvalWire(sends[j], SeqOf(mail.k));
    SameSeqSameRequest(mail.k, |s.issued| - 1);
    assert IsResult(sends, mail.pkt);
  }

  lemma SameDispatches(s: Session, t: Session)
    requires s.ran == t.ran && s.host == t.host
    ensures forall m :: FromDispatch(s, m) <==> FromDispatch(t, m)
    ensures forall m :: TrueResult(s, m) <==> TrueResult(t, m)
  {
    hide Wires, IsResult, SeqOf;
  }

  lemma IssueKeeps(s: Session, payload: Packet)
    requires Inv(s)
    ensures Inv(Next(s, Issue(payload)))
  {
    hide HostOk, CacheOk, InOrder, FromDispatch, TrueResult, SendsOk, SeqOf;
    SameDispatches(s, Next(s, Issue(payload)));
  }

  lemma ReturnKeeps(s: Session, mail: Mail)
    requires Inv(s) && Enabled(s, Return(mail))
    ensures Inv(Next(s, Return(mail)))
  {
    hide HostOk, CacheOk, InOrder, FromDispatch, TrueResult, SendsOk, SeqOf, AcceptsRetval;
    if s.issued != [] && AcceptsRetval(SeqOf(|s.issued| - 1), mail.pkt) {
      AcceptedIsTrue(s, mail);
    }
    SameDispatches(s, Next(s, Return(mail)));
  }

  lemma StepKeeps(s: Session, step: Step)
    requires Inv(s) && Enabled(s, step)
    ensures Inv(Next(s, step))
  {
    match step {
      case Arrive(_, _, _) => ArriveKeeps(s, step);
      case Issue(payload) => IssueKeeps(s, payload);
      case Return(mail) => ReturnKeeps(s, mail);
    }
  }

  /** In a session of fewer than 2^31 requests a packet may be delayed for ever. */
  lemma ShortSessionsTolerateAnyDelay(s: Session, k: nat, now: u64, handler: seq<Send>, mail: Mail)
    requires Inv(s) && |s.issued| <= WINDOW + 1
    ensures k < |s.issued| && SendsOk(handler) ==> Enabled(s, Arrive(k, now, handler))
    ensures mail in s.replies ==> Enabled(s, Return(mail))
  {
    hide HostOk, CacheOk, InOrder, Once, TrueResult, SendsOk, SeqOf;
  }

  /** In any session: a fresh request that reaches a listening host in time is executed, and a RETVAL of its
      handler that reaches the guest while it still waits is accepted with the handler's result. */
  lemma AnswerGetsThrough(s: Session, payload: Packet, now: u64, handler: seq<Send>, i: nat)
    requires Inv(s) && s.host.running && SendsOk(handler)
    requires s.ran != [] ==> |s.issued| - s.ran[|s.ran| - 1] <= WINDOW
    requires |payload| >= 4 && !IsExit(payload)
    requires i < |handler| && handler[i].Reply? && handler[i].cmd == CMD_RETVAL
    ensures var k := |s.issued|;
            var issued := Next(s, Issue(payload));
            var ran := Next(issued, Arrive(k, now, handler));
            var mail := Mail(k, Wire(handler[i], true, SeqOf(k)));
            && Enabled(issued, Arrive(k, now, handler)) && ran.ran == s.ran + [k]
            && mail in ran.replies && Enabled(ran, Return(mail))
            && Next(ran, Return(mail)).accepted == s.accepted + [mail]
            && |mail.pkt| >= COMMAND_LEN && RetvalOf(mail.pkt) == handler[i].addr
  {
    hide HostOk, CacheOk, InOrder, Honest, SendsOk, Wire, SeqOf, AcceptsRetval, Decide, Receive;
    var k := |s.issued|;
    var issued := Next(s, Issue(payload));
    var step := Arrive(k, now, handler);
    var mail := Mail(k, Wire(handler[i], true, SeqOf(k)));
    LastRanIsIssued(s);
    FreshRequestRuns(s, payload, now, handler);
    assert Wires(handler, true, SeqOf(k))[i] == mail.pkt;
    assert mail.pkt in Emitted(Decide(s.host, ArrivalOf(issued, step)));
    RetvalIsAccepted(handler, i, SeqOf(k));
  }

  lemma LastRanIsIssued(s: Session)
    requires Inv(s)
    ensures s.ran != [] ==> s.ran[|s.ran| - 1] < |s.issued|
    ensures |s.ran| == |s.host.log|
  {
    hide HostOk, CacheOk, InOrder, Honest, Once;
  }

  lemma FreshRequestRuns(s: Session, payload: Packet, now: u64, handler: seq<Send>)
    requires Inv(s) && s.host.running && |payload| >= 4 && !IsExit(payload)
    requires s.ran != [] ==> |s.issued| - s.ran[|s.ran| - 1] <= WINDOW
    ensures Decide(s.host, Arrival(RequestPacket(payload, |s.issued|), now, handler)) == Ran(SeqOf(|s.issued|), handler)
  {
    hide CacheOk, InOrder, Honest, SeqOf, Kept, OfferedWires;
    var k := |s.issued|;
    var pkt := RequestPacket(payload, k);
    LastRanIsIssued(s);
    RequestCarriesItsNumber(payload, k);
    if s.ran != [] {
      assert Last(s.host.log).s == SeqOf(s.ran[|s.ran| - 1]);
      SeqOrder(k, s.ran[|s.ran| - 1]);
    }
    assert pkt[..|pkt| - NET_SEQ_TRAILER_LEN] == payload;
  }

  lemma RetvalIsAccepted(handler: seq<Send>, i: nat, seqNo: u32)
    requires SendsOk(handler) && i < |handler| && handler[i].Reply? && handler[i].cmd == CMD_RETVAL
    ensures var w := Wire(handler[i], true, seqNo);
            AcceptsRetval(seqNo, w) && |w| >= COMMAND_LEN && RetvalOf(w) == handler[i].addr
  {
    hide Wire;
    assert SendOk(handler[i]);
    WireFields(handler[i], true, seqNo);
    RetvalWire(handler[i], seqNo);
  }

  // ---------------------------------------------------------------- runs

  function RunSteps(s: Session, steps: seq<Step>): (r: Session)
    requires Shape(s)
    ensures Shape(r)
    decreases |steps|
  {
    if steps == [] then s else RunSteps(Next(s, steps[0]), steps[1..])
  }

  ghost predicate Possible(s: Session, steps: seq<Step>)
    requires Shape(s)
    decreases |steps|
  {
    steps != [] ==> Enabled(s, steps[0]) && Possible(Next(s, steps[0]), steps[1..])
  }

  lemma {:induction false} RunStepsKeeps(s: Session, steps: seq<Step>)
    requires Inv(s) && Possible(s, steps)
    ensures Inv(RunSteps(s, steps))
    decreases |steps|
  {
    if steps != [] {
      StepKeeps(s, steps[0]);
      RunStepsKeeps(Next(s, steps[0]), steps[1..]);
    }
  }

  /** End to end, over every run: no request is executed twice, requests are executed in the
      order issued, and every RETVAL the guest accepts for request k carries the result of the
      one execution of k. */
  lemma SessionIsSafe(steps: seq<Step>)
    requires Possible(Start(), steps)
    ensures var t := RunSteps(Start(), steps); |t.ran| == |t.host.log| && Once(t)
    ensures var t := RunSteps(Start(), steps); forall m | m in t.accepted :: TrueResult(t, m)
    ensures var t := RunSteps(Start(), steps);
            forall i, j | 0 <= i < |t.ran| && 0 <= j < |t.ran| && t.ran[i] == t.ran[j] :: i == j
  {
    BootOk();
    assert Inv(Start());
    RunStepsKeeps(Start(), steps);
    var t := RunSteps(Start(), steps);
    hide *;
    OnceMeansUnique(t);
    InvMeans(t);
  }

  lemma OnceMeansUnique(t: Session)
    ensures Once(t) ==> forall i, j | 0 <= i < |t.ran| && 0 <= j < |t.ran| && t.ran[i] == t.ran[j] :: i == j
  {
  }

  lemma InvMeans(t: Session)
    ensures Inv(t) ==> |t.ran| == |t.host.log| && Once(t) && forall m | m in t.accepted :: TrueResult(t, m)
  {
  }
}
