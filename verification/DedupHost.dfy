/** The host's console loop around the cache: `do_network_console` and `net_send_cmd`. */
module DedupHost {
  import opened Bytes
  import opened DedupCache

  const CMD_RETVAL: Packet := [0x52, 0x45, 0x54, 0x56]    // "RETV"
  const CMD_SENDBIN: Packet := [0x53, 0x42, 0x49, 0x4e]   // "SBIN"
  const CMD_SENDBINQ: Packet := [0x53, 0x42, 0x49, 0x51]  // "SBIQ"
  const SYSCALL_EXIT: Packet := [0x44, 0x43, 0x30, 0x30]      // "DC00"
  const SYSCALL_PROGEXIT: Packet := [0x44, 0x43, 0x32, 0x32]  // "DC22"
  const COMMAND_LEN := 12
  const WIRE_MAX := 2048

  /** One packet the handler of a request sends: through `net_send_cmd`, or through the
      transport's `send_cmd`; `ok` says whether the socket took it. */
  datatype Send =
    | Reply(cmd: Packet, addr: u32, size: u32, data: Packet, ok: bool)
    | Bulk(cmd: Packet, rest: Packet, ok: bool)

  ghost predicate SendOk(s: Send) {
    |s.cmd| == 4 && (s.Bulk? ==> s.cmd != CMD_RETVAL)
  }

  /** The bytes of a send; a RETVAL sent while capturing seq `s` ends with that seq. */
  function Wire(send: Send, capturing: bool, s: u32): Packet {
    match send
    case Reply(cmd, addr, size, data, _) =>
      cmd + BE32(addr) + BE32(size)
      + (if |data| > WIRE_MAX - COMMAND_LEN - NET_SEQ_TRAILER_LEN
          then data[..WIRE_MAX - COMMAND_LEN - NET_SEQ_TRAILER_LEN] else data)
      + (if capturing && cmd == CMD_RETVAL then Trailer(s) else [])
    case Bulk(cmd, rest, _) => cmd + rest
  }

  /** Whether a send is offered to the cache: the socket took it and it pushes, not pulls. */
  predicate Offered(send: Send) {
    send.ok && (send.Bulk? ==> send.cmd != CMD_SENDBIN && send.cmd != CMD_SENDBINQ)
  }

  /** The layout of what goes out: command, address and size in network order, as many data bytes as
      leave room for a trailer, and the trailer of a RETVAL that is being captured. */
  lemma WireFields(send: Send, capturing: bool, s: u32)
    requires send.Reply? && |send.cmd| == 4
    ensures var w := Wire(send, capturing, s);
            var n := if |send.data| > 2028 then 2028 else |send.data|;
            && |w| == 12 + n + (if capturing && send.cmd == CMD_RETVAL then 8 else 0)
            && w[..4] == send.cmd && w[4..8] == BE32(send.addr) && w[8..12] == BE32(send.size)
            && w[12..12 + n] == send.data[..n]
            && (capturing && send.cmd == CMD_RETVAL ==> w[12 + n..] == Trailer(s))
  {
    hide BE32, Trailer;
    var w, n := Wire(send, capturing, s), if |send.data| > 2028 then 2028 else |send.data|;
    var head := send.cmd + BE32(send.addr) + BE32(send.size);
    assert w[..12] == head;
    assert w[4..8] == head[4..8] && w[8..12] == head[8..12] && w[12..12 + n] == send.data[..n];
  }

  lemma BulkWire(send: Send, capturing: bool, s: u32)
    requires send.Bulk?
    ensures Wire(send, capturing, s) == send.cmd + send.rest
  {
  }

  function Wires(sends: seq<Send>, capturing: bool, s: u32): (ws: seq<Packet>)
    ensures |ws| == |sends| && forall i | 0 <= i < |sends| :: ws[i] == Wire(sends[i], capturing, s)
  {
    seq(|sends|, i requires 0 <= i < |sends| => Wire(sends[i], capturing, s))
  }

  function OfferedWires(sends: seq<Send>, s: u32): (ws: seq<Packet>)
    ensures forall w :: w in ws ==> w in Wires(sends, true, s)
    decreases |sends|
  {
    if sends == [] then []
    else
      assert Wires(sends, true, s)[0] == Wire(sends[0], true, s);
      assert forall w :: w in Wires(sends[1..], true, s) ==> w in Wires(sends, true, s) by {
        forall w | w in Wires(sends[1..], true, s)
          ensures w in Wires(sends, true, s)
        {
          var i :| 0 <= i < |sends[1..]| && Wires(sends[1..], true, s)[i] == w;
          assert Wires(sends, true, s)[i + 1] == w;
        }
      }
      (if Offered(sends[0]) then [Wire(sends[0], true, s)] else []) + OfferedWires(sends[1..], s)
  }

  lemma OfferedStep(sends: seq<Send>, s: u32)
    requires sends != []
    ensures OfferedWires(sends, s)
         == if Offered(sends[0]) then [Wire(sends[0], true, s)] + OfferedWires(sends[1..], s)
             else OfferedWires(sends[1..], s)
  {
    assert [] + OfferedWires(sends[1..], s) == OfferedWires(sends[1..], s);
  }

  /** The cache is offered only what the socket took and what is not a pull of data. */
  lemma {:induction false} OnlyPushesAreOffered(sends: seq<Send>, s: u32, w: Packet)
    requires w in OfferedWires(sends, s)
    ensures exists i :: 0 <= i < |sends| && sends[i].ok && w == Wire(sends[i], true, s)
                        && (sends[i].Reply? || sends[i].cmd !in {CMD_SENDBIN, CMD_SENDBINQ})
    decreases |sends|
  {
    hide Wire;
    OfferedStep(sends, s);
    if !(Offered(sends[0]) && w == Wire(sends[0], true, s)) {
      OnlyPushesAreOffered(sends[1..], s, w);
      var i :| 0 <= i < |sends[1..]| && sends[1..][i].ok && w == Wire(sends[1..][i], true, s)
               && (sends[1..][i].Reply? || sends[1..][i].cmd !in {CMD_SENDBIN, CMD_SENDBINQ});
      assert sends[i + 1] == sends[1..][i];
    }
  }

  /** The cache after offering a list of sends to it. */
  function CaptureSends(c: Cache, sends: seq<Send>): (r: Cache)
    requires CacheOk(c)
    ensures CacheOk(r)
  {
    if c.capturing then CaptureAll(c, OfferedWires(sends, c.captureSeq)) else c
  }

  lemma CaptureSendsStep(c: Cache, sends: seq<Send>)
    requires CacheOk(c) && sends != []
    ensures CaptureSends(c, sends)
         == CaptureSends(if Offered(sends[0]) then Capture(c, Wire(sends[0], c.capturing, c.captureSeq))
             else c, sends[1..])
  {
    if c.capturing {
      OfferedStep(sends, c.captureSeq);
      hide OfferedWires, Wire;
      var w, rest := Wire(sends[0], true, c.captureSeq), OfferedWires(sends[1..], c.captureSeq);
      assert ([w] + rest)[1..] == rest;
    }
  }

  lemma NoSendsLeft(c: Cache, sends: seq<Send>)
    requires CacheOk(c) && sends == []
    ensures CaptureSends(c, sends) == c
  {
  }

  predicate IsExit(pkt: Packet) {
    |pkt| >= 4 && (pkt[..4] == SYSCALL_EXIT || pkt[..4] == SYSCALL_PROGEXIT)
  }

  /** What the loop does with one received packet. */
  datatype Action =
    | Ignored                                    // shorter than a command id
    | Replayed(sent: seq<Packet>)                // a duplicate of the last request
    | Dropped                                    // a superseded duplicate
    | Ran(s: u32, sends: seq<Send>)              // a fresh trailered request
    | RanLegacy(sends: seq<Send>)                // a request without a trailer
    | Exited

  /** `handler` lists what the request's handler sends when it is run. */
  function Act(c: Cache, pkt: Packet, now: u64, handler: seq<Send>): Action
    requires CacheOk(c)
  {
    if |pkt| < 4 then Ignored
    else match ExtractSeq(pkt)
      case None => if IsExit(pkt) then Exited else RanLegacy(handler)
      case Some(s) =>
        match Replay(c, s, now)
        case Some(ps) => Replayed(ps)
        case None =>
          if IsStale(c, s) then Dropped
          else if IsExit(pkt[..|pkt| - NET_SEQ_TRAILER_LEN]) then Exited
          else Ran(s, handler)
  }

  function CacheAfter(c: Cache, pkt: Packet, now: u64, handler: seq<Send>): (r: Cache)
    requires CacheOk(c)
    ensures CacheOk(r)
  {
    match Act(c, pkt, now, handler)
    case Ran(s, sends) => Dispatched(c, s, now, OfferedWires(sends, s))
    case Exited => (match ExtractSeq(pkt) case Some(s) => Begin(c, s, now) case None => c)
    case _ => c
  }

  /** Packets without a trailer never change the cache. */
  lemma LegacyTrafficBypassesCache(c: Cache, pkt: Packet, now: u64, handler: seq<Send>)
    requires CacheOk(c) && ExtractSeq(pkt).None?
    ensures CacheAfter(c, pkt, now, handler) == c
    ensures Act(c, pkt, now, handler) in {Ignored, Exited, RanLegacy(handler)}
  {
  }

  /** The one dispatch the loop abandons is an exit. It sends nothing, so the previous reply stays. */
  lemma ExitKeepsTheReply(c: Cache, pkt: Packet, now: u64, handler: seq<Send>)
    requires CacheOk(c) && Act(c, pkt, now, handler).Exited? && ExtractSeq(pkt).Some?
    ensures CacheAfter(c, pkt, now, handler).capturing
    ensures c.valid ==> Replay(CacheAfter(c, pkt, now, handler), c.last, now) == Some(c.packets[..c.packetCount])
  {
  }

  /** The bytes of every send went out, in order. */
  ghost predicate SentAll(sent: seq<Packet>, sends: seq<Send>, capturing: bool, s: u32) {
    |sent| == |sends| && forall i | 0 <= i < |sends| :: sent[i] == Wire(sends[i], capturing, s)
  }

  lemma AllSent(sends: seq<Send>, capturing: bool, s: u32)
    ensures SentAll(Wires(sends, capturing, s), sends, capturing, s)
  {
  }

  /** A request without a trailer is run every time it arrives, unless it is an exit. */
  lemma LegacyIsRun(c: Cache, pkt: Packet, now: u64, handler: seq<Send>)
    requires CacheOk(c) && |pkt| >= 4 && ExtractSeq(pkt).None?
    ensures Act(c, pkt, now, handler)
         == if pkt[..4] == SYSCALL_EXIT || pkt[..4] == SYSCALL_PROGEXIT then Exited else RanLegacy(handler)
  {
  }

  /** A request with a trailer: when it is answered from the cache, dropped, an exit, or run. */
  lemma TraileredIsRunExactly(c: Cache, pkt: Packet, now: u64, handler: seq<Send>, s: u32)
    requires CacheOk(c) && ExtractSeq(pkt) == Some(s)
    ensures var act := Act(c, pkt, now, handler);
            var ahead, age := (s - c.last) % 0x1_0000_0000, (now - c.capturedAt) % 0x1_0000_0000_0000_0000;
            if c.valid && !(0 < ahead < 0x8000_0000) then
              act == if ahead == 0 && age <= 3_000_000 then Replayed(c.packets[..c.packetCount]) else Dropped
            else
              act == if |pkt| >= 12 && pkt[..4] in {SYSCALL_EXIT, SYSCALL_PROGEXIT} then Exited else Ran(s, handler)
  {
    TrailerExactly(pkt, s);
    hide Trailer;
    SameIdAhead(s, c.last);
    var payload := pkt[..|pkt| - NET_SEQ_TRAILER_LEN];
    assert |payload| >= 4 ==> payload[..4] == pkt[..4];
  }

  lemma SameIdAhead(s: u32, last: u32)
    ensures (s - last) % 0x1_0000_0000 == 0 <==> s == last
  {
  }

  class Console {
    const cache: DedupState
    var running: bool

    predicate Valid()
      reads this, cache, cache.packets
    {
      cache.Valid() && !cache.capturing
    }

    constructor ()
      ensures Valid() && fresh(cache) && fresh(cache.packets)
      ensures running && !cache.valid
    {
      cache := new DedupState();
      running := true;
    }

    /** `net_send_cmd` and the transport's `send_cmd`: put the bytes on the wire and offer them. */
    method Transmit(send: Send) returns (wire: Packet)
      requires cache.Valid()
      modifies cache`captureCount, cache.packets
      ensures cache.Valid()
      ensures wire == Wire(send, cache.capturing, cache.captureSeq)
      ensures cache.State() == if Offered(send) then Capture(old(cache.State()), wire) else old(cache.State())
    {
      wire := Wire(send, cache.capturing, cache.captureSeq);
      if Offered(send) {
        cache.CapturePkt(wire);
      }
    }

    method TransmitAll(sends: seq<Send>) returns (wires: seq<Packet>)
      requires cache.Valid()
      modifies cache`captureCount, cache.packets
      ensures cache.Valid()
      ensures wires == Wires(sends, cache.capturing, cache.captureSeq)
      ensures cache.State() == CaptureSends(old(cache.State()), sends)
    {
      hide CaptureSends, Capture, Wire, Offered, CacheOk;
      wires := [];
      ghost var c := cache.State();
      for i := 0 to |sends|
        invariant cache.Valid()
        invariant |wires| == i && wires == Wires(sends, cache.capturing, cache.captureSeq)[..i]
        invariant CaptureSends(cache.State(), sends[i..]) == CaptureSends(c, sends)
      {
        assert sends[i..][0] == sends[i] && sends[i..][1..] == sends[i + 1..];
        CaptureSendsStep(cache.State(), sends[i..]);
        var wire := Transmit(sends[i]);
        wires := wires + [wire];
      }
      NoSendsLeft(cache.State(), sends[|sends|..]);
    }

    /** One turn of the loop: `sent` is everything that went out because of `pkt`. */
    method HandlePacket(pkt: Packet, now: u64, handler: seq<Send>) returns (sent: seq<Packet>)
      requires Valid() && running
      modifies this, cache, cache.packets
      ensures cache.Valid()
      ensures cache.State() == CacheAfter(old(cache.State()), pkt, now, handler)
      ensures running <==> !Act(old(cache.State()), pkt, now, handler).Exited?
      ensures running ==> Valid()
      ensures sent == match Act(old(cache.State()), pkt, now, handler)
                      case Replayed(ps) => ps
                      case Ran(s, sends) => Wires(sends, true, s)
                      case RanLegacy(sends) => Wires(sends, false, old(cache.captureSeq))
                      case _ => []
      // too short for a command
      ensures |pkt| < 4 ==> running && sent == [] && cache.State() == old(cache.State())
      // without a trailer
      ensures |pkt| >= 4 && ExtractSeq(pkt).None? ==>
                && cache.State() == old(cache.State())
                && if pkt[..4] in {SYSCALL_EXIT, SYSCALL_PROGEXIT} then !running && sent == []
                   else running && SentAll(sent, handler, false, old(cache.captureSeq))
      // with one, newer than the last request or the first ever
      ensures forall s | ExtractSeq(pkt) == Some(s)
                         && (!old(cache.valid) || 0 < (s - old(cache.last)) % 0x1_0000_0000 < 0x8000_0000) ::
                if |pkt| >= 12 && pkt[..4] in {SYSCALL_EXIT, SYSCALL_PROGEXIT} then !running && sent == []
                else running && SentAll(sent, handler, true, s) && cache.valid && cache.last == s
      // with one, the last request's or an older one
      ensures forall s | ExtractSeq(pkt) == Some(s)
                         && old(cache.valid) && !(0 < (s - old(cache.last)) % 0x1_0000_0000 < 0x8000_0000) ::
                && running && cache.State() == old(cache.State())
                && sent == if s == old(cache.last)
                              && (now - old(cache.capturedAt)) % 0x1_0000_0000_0000_0000 <= 3_000_000
                           then old(cache.packets[..cache.packetCount]) else []
    {
      hide Wire, SentAll, OfferedWires, CaptureAll;
      ghost var c := cache.State();
      AllSent(handler, false, c.captureSeq);
      if |pkt| >= 4 && ExtractSeq(pkt).None? {
        LegacyIsRun(c, pkt, now, handler);
      }
      if ExtractSeq(pkt).Some? {
        TraileredIsRunExactly(c, pkt, now, handler, ExtractSeq(pkt).value);
        AllSent(handler, true, ExtractSeq(pkt).value);
      }
      sent := [];
      if |pkt| < 4 {
        return;
      }
      var active := false;
      var payload := pkt;
      match ExtractSeq(pkt) {
        case Some(s) =>
          payload := pkt[..|pkt| - NET_SEQ_TRAILER_LEN];
          var hit, replayed := cache.TryReplay(s, now);
          if hit {
            return replayed;
          }
          if IsStale(cache.State(), s) {
            return [];
          }
          cache.BeginCapture(s, now);
          active := true;
        case None =>
      }
      if IsExit(payload) {
        running := false;
        return [];
      }
      sent := TransmitAll(handler);
      if active {
        cache.EndCapture();
      }
    }
  }
}
