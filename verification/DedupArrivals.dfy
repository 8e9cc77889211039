/**
 The host as a whole run of arriving packets: which requests get dispatched, in which order,
 and for which sets of seq ids every request is dispatched at most once.
 */
module DedupArrivals {
  import opened Bytes
  import opened DedupCache
  import opened DedupHost

  /** A packet that reaches the host, when, and what its handler would send. */
  datatype Arrival = Arrival(pkt: Packet, now: u64, handler: seq<Send>)

  datatype Dispatch = Dispatch(s: u32, sends: seq<Send>)

  /** `log` is every trailered request the host has executed, oldest first. */
  datatype Host = Host(cache: Cache, running: bool, log: seq<Dispatch>)

  function Empty(): (c: Cache)
    ensures CacheOk(c)
  {
    Cache(0, 0, seq(DEDUP_MAX_PACKETS, _ => []), 0, false, false, 0, 0)
  }

  function Boot(): Host {
    Host(Empty(), true, [])
  }

  function Last(log: seq<Dispatch>): Dispatch
    requires log != []
  {
    log[|log| - 1]
  }

  /** The cache holds exactly what can be replayed of the newest dispatch. */
  ghost predicate HostOk(h: Host) {
    && CacheOk(h.cache)
    && (h.running ==> !h.cache.capturing)
    && (h.cache.valid <==> h.log != [])
    && (h.cache.valid ==>
          && h.cache.last == Last(h.log).s
          && h.cache.packets[..h.cache.packetCount]
              == Kept(OfferedWires(Last(h.log).sends, Last(h.log).s), DEDUP_MAX_PACKETS))
  }

  function Decide(h: Host, a: Arrival): Action
    requires CacheOk(h.cache)
  {
    if h.running then Act(h.cache, a.pkt, a.now, a.handler) else Ignored
  }

  function Receive(h: Host, a: Arrival): (r: Host)
    requires CacheOk(h.cache)
    ensures CacheOk(r.cache)
  {
    match Decide(h, a)
    case Ran(s, sends) => Host(CacheAfter(h.cache, a.pkt, a.now, a.handler), true, h.log + [Dispatch(s, sends)])
    case Exited => Host(CacheAfter(h.cache, a.pkt, a.now, a.handler), false, h.log)
    case _ => h
  }

  function Run(h: Host, arrivals: seq<Arrival>): (r: Host)
    requires CacheOk(h.cache)
    ensures CacheOk(r.cache)
    decreases |arrivals|
  {
    if arrivals == [] then h else Run(Receive(h, arrivals[0]), arrivals[1..])
  }

  /** Seq `b` is newer than `a` by the signed 32-bit difference. */
  predicate Newer(b: u32, a: u32) {
    SignedDelta(b, a) > 0
  }

  ghost predicate InOrder(log: seq<Dispatch>) {
    forall i | 0 < i < |log| :: Newer(log[i].s, log[i - 1].s)
  }

  lemma BootOk()
    ensures HostOk(Boot()) && InOrder(Boot().log)
  {
  }

  /** The host dispatches only requests newer than the last one, and keeps its cache in step. */
  lemma ReceiveKeepsHost(h: Host, a: Arrival)
    requires HostOk(h) && InOrder(h.log)
    ensures HostOk(Receive(h, a)) && InOrder(Receive(h, a).log)
    ensures h.log <= Receive(h, a).log
    ensures |Receive(h, a).log| > |h.log| ==>
              && ExtractSeq(a.pkt) == Some(Last(Receive(h, a).log).s)
              && Last(Receive(h, a).log).sends == a.handler
              && |Receive(h, a).log| == |h.log| + 1
  {
    var d := Decide(h, a);
    match d {
      case Ran(s, sends) =>
        hide OfferedWires, CaptureAll;
        ReplayIsTheDispatch(h.cache, s, a.now, OfferedWires(sends, s), s, a.now);
        assert h.log != [] ==> Newer(s, Last(h.log).s);
      case Exited =>
      case _ =>
    }
  }

  lemma {:induction false} RunKeepsHost(h: Host, arrivals: seq<Arrival>)
    requires HostOk(h) && InOrder(h.log)
    ensures HostOk(Run(h, arrivals)) && InOrder(Run(h, arrivals).log)
    ensures h.log <= Run(h, arrivals).log
    ensures forall i | |h.log| <= i < |Run(h, arrivals).log| ::
              exists a :: a in arrivals && ExtractSeq(a.pkt) == Some(Run(h, arrivals).log[i].s)
    decreases |arrivals|
  {
    if arrivals != [] {
      var n := Receive(h, arrivals[0]);
      ReceiveKeepsHost(h, arrivals[0]);
      RunKeepsHost(n, arrivals[1..]);
      forall i | |h.log| <= i < |Run(h, arrivals).log|
        ensures exists a :: a in arrivals && ExtractSeq(a.pkt) == Some(Run(h, arrivals).log[i].s)
      {
        if i < |n.log| {
          assert arrivals[0] in arrivals;
        } else {
          var a :| a in arrivals[1..] && ExtractSeq(a.pkt) == Some(Run(h, arrivals).log[i].s);
          assert a in arrivals;
        }
      }
    }
  }

  // ---------------------------------------------------------------- when once means once

  /** How far `s` lies after `base` on the circle of 32-bit numbers. */
  function Offset(s: u32, base: u32): u32 {
    Wrap32(s - base)
  }

  lemma NewerIsFurther(a: u32, b: u32, base: u32)
    requires Newer(b, a) && Offset(a, base) <= 0x8000_0000 && Offset(b, base) <= 0x8000_0000
    ensures Offset(a, base) < Offset(b, base)
  {
    WrapOfDifference(a, b, base);
  }

  /** Offsets from a common base differ as the ids do, up to a turn of the circle. */
  lemma WrapOfDifference(a: u32, b: u32, base: u32)
    ensures var d := Offset(b, base) - Offset(a, base); Wrap32(b - a) == if d < 0 then d + 0x1_0000_0000 else d
  {
    OffsetIs(a, base);
    OffsetIs(b, base);
    hide Offset;
  }

  lemma OffsetIs(s: u32, base: u32)
    ensures Offset(s, base) == if s < base then s - base + 0x1_0000_0000 else s - base
  {
  }

  ghost predicate Rising(log: seq<Dispatch>, base: u32) {
    forall i, j | 0 <= i < j < |log| :: Offset(log[i].s, base) < Offset(log[j].s, base)
  }

  lemma {:induction false} InOrderRises(log: seq<Dispatch>, base: u32)
    requires InOrder(log) && forall i | 0 <= i < |log| :: Offset(log[i].s, base) <= 0x8000_0000
    ensures Rising(log, base)
  {
    if |log| > 1 {
      var shorter := log[..|log| - 1];
      InOrderRises(shorter, base);
      NewerIsFurther(log[|log| - 2].s, log[|log| - 1].s, base);
      hide Offset;
      forall i, j | 0 <= i < j < |log|
        ensures Offset(log[i].s, base) < Offset(log[j].s, base)
      {
        assert i < |log| - 2 ==> Offset(shorter[i].s, base) < Offset(shorter[|log| - 2].s, base);
        assert j < |log| - 1 ==> Offset(shorter[i].s, base) < Offset(shorter[j].s, base);
      }
    }
  }

  ghost predicate NoRepeats(log: seq<Dispatch>) {
    forall i, j | 0 <= i < j < |log| :: log[i].s != log[j].s
  }

  ghost predicate SeqsIn(arrivals: seq<Arrival>, ids: set<u32>) {
    forall a | a in arrivals :: ExtractSeq(a.pkt).Some? ==> ExtractSeq(a.pkt).value in ids
  }

  ghost predicate HalfCircle(ids: set<u32>, base: u32) {
    forall s | s in ids :: Offset(s, base) <= 0x8000_0000
  }

  /** Loss, duplication, reordering and delay of requests whose seq ids lie within 2^31 after
      some first one: each is dispatched at most once, in rising order. */
  lemma DispatchedAtMostOnce(arrivals: seq<Arrival>, ids: set<u32>, base: u32)
    requires SeqsIn(arrivals, ids) && HalfCircle(ids, base)
    ensures Rising(Run(Boot(), arrivals).log, base) && NoRepeats(Run(Boot(), arrivals).log)
  {
    BootOk();
    RunKeepsHost(Boot(), arrivals);
    var log := Run(Boot(), arrivals).log;
    forall i | 0 <= i < |log|
      ensures Offset(log[i].s, base) <= 0x8000_0000
    {
      var a :| a in arrivals && ExtractSeq(a.pkt) == Some(log[i].s);
    }
    InOrderRises(log, base);
  }

  // ---------------------------------------------------------------- and when it does not

  ghost predicate Spread(ids: set<u32>) {
    forall b | b in ids :: !HalfCircle(ids, b)
  }

  lemma BeyondHalfIsOlder(s: u32, b: u32)
    requires Offset(s, b) > 0x8000_0000
    ensures Newer(b, s)
  {
    assert Wrap32(b - s) == 0x1_0000_0000 - Offset(s, b);
  }

  ghost function Older(ids: set<u32>, b: u32): (s: u32)
    requires Spread(ids) && b in ids
    ensures s in ids && Newer(b, s)
  {
    hide Newer, Offset;
    var s :| s in ids && !(Offset(s, b) <= 0x8000_0000);
    BeyondHalfIsOlder(s, b);
    s
  }

  ghost predicate Climbs(w: seq<u32>) {
    forall i | 0 < i < |w| :: Newer(w[i], w[i - 1])
  }

  /** Step back from `b` to older and older ids, `n` times. */
  ghost function WalkTo(ids: set<u32>, b: u32, n: nat): (w: seq<u32>)
    requires Spread(ids) && b in ids
    ensures |w| == n + 1 && w[n] == b && Climbs(w)
    ensures forall x | x in w :: x in ids
    decreases n
  {
    if n == 0 then [b] else WalkTo(ids, Older(ids, b), n - 1) + [b]
  }

  function Ping(s: u32): (a: Arrival)
    ensures ExtractSeq(a.pkt) == Some(s) && |a.pkt| == 12 && !IsExit(a.pkt[..4])
  {
    TrailerIsExtracted([0, 0, 0, 0], s);
    assert ([0, 0, 0, 0] + Trailer(s))[..4][0] == 0;
    Arrival([0, 0, 0, 0] + Trailer(s), 0, [])
  }

  function Pings(w: seq<u32>): (arrivals: seq<Arrival>)
    ensures |arrivals| == |w| && forall i | 0 <= i < |w| :: arrivals[i] == Ping(w[i])
  {
    seq(|w|, i requires 0 <= i < |w| => Ping(w[i]))
  }

  function Silent(w: seq<u32>): (log: seq<Dispatch>)
    ensures |log| == |w| && forall i | 0 <= i < |w| :: log[i] == Dispatch(w[i], [])
  {
    seq(|w|, i requires 0 <= i < |w| => Dispatch(w[i], []))
  }

  lemma NewerPingRuns(h: Host, s: u32)
    requires HostOk(h) && InOrder(h.log) && h.running && (h.log != [] ==> Newer(s, Last(h.log).s))
    ensures var n := Receive(h, Ping(s));
            n.running && n.log == h.log + [Dispatch(s, [])] && Last(n.log).s == s && HostOk(n) && InOrder(n.log)
  {
    assert SignedDelta(s, s) == 0;
    ReceiveKeepsHost(h, Ping(s));
  }

  lemma ClimbsTail(w: seq<u32>)
    requires w != [] && Climbs(w)
    ensures Climbs(w[1..]) && (w[1..] != [] ==> Newer(w[1..][0], w[0]))
  {
    hide Newer;
  }

  lemma PingsTail(w: seq<u32>)
    requires w != []
    ensures Pings(w) != [] && Pings(w)[0] == Ping(w[0]) && Pings(w)[1..] == Pings(w[1..])
    ensures Silent(w) == [Dispatch(w[0], [])] + Silent(w[1..])
  {
    hide Ping;
  }

  /** A host that will run ever newer pings from here on. */
  ghost predicate ReadyFor(h: Host, w: seq<u32>) {
    && HostOk(h) && InOrder(h.log) && h.running && Climbs(w)
    && (h.log != [] && w != [] ==> Newer(w[0], Last(h.log).s))
  }

  lemma PingIsRun(h: Host, w: seq<u32>)
    requires ReadyFor(h, w) && w != []
    ensures var n := Receive(h, Ping(w[0])); ReadyFor(n, w[1..]) && n.log == h.log + [Dispatch(w[0], [])]
  {
    hide Receive, Newer, Ping, InOrder, HostOk, Climbs;
    NewerPingRuns(h, w[0]);
    ClimbsTail(w);
  }

  lemma {:induction false} ClimbingPingsAllRun(h: Host, w: seq<u32>)
    requires ReadyFor(h, w)
    ensures Run(h, Pings(w)).log == h.log + Silent(w)
    decreases |w|
  {
    hide ReadyFor, Receive, Ping, Pings, Silent, CacheOk;
    ReadyHostIsOk(h, w);
    if w == [] {
      NoPings();
    } else {
      PingIsRun(h, w);
      PingsTail(w);
      ClimbingPingsAllRun(Receive(h, Ping(w[0])), w[1..]);
      Appending(h.log, [Dispatch(w[0], [])], Silent(w[1..]));
    }
  }

  lemma Appending(a: seq<Dispatch>, b: seq<Dispatch>, c: seq<Dispatch>)
    ensures a + b + c == a + (b + c)
  {
  }

  lemma ReadyHostIsOk(h: Host, w: seq<u32>)
    requires ReadyFor(h, w)
    ensures CacheOk(h.cache)
  {
  }

  lemma NoPings()
    ensures Pings([]) == [] && Silent([]) == []
  {
  }

  lemma PingsCarry(w: seq<u32>, ids: set<u32>)
    requires forall x | x in w :: x in ids
    ensures SeqsIn(Pings(w), ids)
  {
    hide Ping;
  }

  lemma TooManyRepeat(w: seq<u32>, ids: set<u32>)
    requires |w| > |ids| && forall x | x in w :: x in ids
    ensures !NoRepeats(Silent(w))
  {
    if NoRepeats(Silent(w)) {
      forall i, j | 0 <= i < j < |w|
        ensures w[i] != w[j]
      {
        assert Silent(w)[i].s != Silent(w)[j].s;
      }
      DistinctFit(w, ids);
    }
  }

  lemma BootLog()
    ensures Boot().log == [] && Boot().running && CacheOk(Boot().cache)
  {
  }

  lemma BootIsReady(w: seq<u32>)
    requires Climbs(w)
    ensures ReadyFor(Boot(), w)
  {
    BootOk();
    BootLog();
  }

  /** Ids that fit no half circle can be sent in an order that runs one of them twice. */
  lemma SpreadIdsRepeat(ids: set<u32>) returns (arrivals: seq<Arrival>)
    requires ids != {} && Spread(ids)
    ensures SeqsIn(arrivals, ids) && !NoRepeats(Run(Boot(), arrivals).log)
  {
    hide *;
    var b :| b in ids;
    var w := WalkTo(ids, b, |ids|);
    arrivals := Pings(w);
    BootOk();
    BootLog();
    BootIsReady(w);
    PingsCarry(w, ids);
    ClimbingPingsAllRun(Boot(), w);
    TooManyRepeat(w, ids);
    assert [] + Silent(w) == Silent(w);
  }

  ghost predicate AlwaysAtMostOnce(ids: set<u32>) {
    forall arrivals | SeqsIn(arrivals, ids) :: NoRepeats(Run(Boot(), arrivals).log)
  }

  /** Exactly when the protocol is safe: all ids in use lie on one half of the circle. */
  lemma AtMostOnceExactly(ids: set<u32>)
    ensures AlwaysAtMostOnce(ids) <==> ids == {} || exists base :: base in ids && HalfCircle(ids, base)
  {
    if ids == {} {
      forall arrivals | SeqsIn(arrivals, ids)
        ensures NoRepeats(Run(Boot(), arrivals).log)
      {
        DispatchedAtMostOnce(arrivals, ids, 0);
      }
    } else if base :| base in ids && HalfCircle(ids, base) {
      forall arrivals | SeqsIn(arrivals, ids)
        ensures NoRepeats(Run(Boot(), arrivals).log)
      {
        DispatchedAtMostOnce(arrivals, ids, base);
      }
    } else {
      var arrivals := SpreadIdsRepeat(ids);
    }
  }

  // ---------------------------------------------------------------- answering a retransmit

  /** Every send was taken by the socket, pushes rather than pulls, and is short enough to keep; there
      are no more of them than the cache has room for. */
  predicate AllKept(sends: seq<Send>, s: u32) {
    && |sends| <= 64
    && forall i | 0 <= i < |sends| ::
        && sends[i].ok && (sends[i].Bulk? ==> sends[i].cmd !in {CMD_SENDBIN, CMD_SENDBINQ})
        && 0 < |Wire(sends[i], true, s)| <= 2048
  }

  lemma NothingOffered(sends: seq<Send>, s: u32)
    requires sends == []
    ensures OfferedWires(sends, s) == [] == Wires(sends, true, s)
  {
  }

  lemma AllKeptTail(sends: seq<Send>, s: u32)
    requires AllKept(sends, s) && sends != []
    ensures Offered(sends[0]) && Capturable(Wire(sends[0], true, s)) && AllKept(sends[1..], s)
    ensures Wires(sends, true, s) == [Wire(sends[0], true, s)] + Wires(sends[1..], true, s)
  {
    hide Wire;
  }

  lemma KeptStep(p: Packet, rest: seq<Packet>, room: nat)
    requires Capturable(p) && room > 0
    ensures Kept([p] + rest, room) == [p] + Kept(rest, room - 1)
  {
    assert ([p] + rest)[1..] == rest;
  }

  lemma {:induction false} AllKeptIsAll(sends: seq<Send>, s: u32, room: nat)
    requires AllKept(sends, s) && |sends| <= room
    ensures Kept(OfferedWires(sends, s), room) == Wires(sends, true, s)
    decreases |sends|
  {
    hide OfferedWires, Wire, Offered, Capturable, Wires, AllKept;
    if sends == [] {
      NothingOffered(sends, s);
    } else {
      OfferedStep(sends, s);
      AllKeptTail(sends, s);
      AllKeptIsAll(sends[1..], s, room - 1);
      KeptStep(Wire(sends[0], true, s), OfferedWires(sends[1..], s), room);
    }
  }

  /** A retransmit of the newest request, whatever its payload says: inside the window it gets
      the recorded answer and nothing runs, after it nothing happens at all. */
  lemma RetransmitIsHarmless(h: Host, a: Arrival)
    requires HostOk(h) && h.running && h.log != []
    requires ExtractSeq(a.pkt) == Some(Last(h.log).s)
    ensures Receive(h, a) == h
    ensures Decide(h, a) == if (a.now - h.cache.capturedAt) % 0x1_0000_0000_0000_0000 <= DEDUP_WINDOW_USEC
                            then Replayed(Kept(OfferedWires(Last(h.log).sends, Last(h.log).s), DEDUP_MAX_PACKETS))
                            else Dropped
    ensures Decide(h, a).Replayed? && AllKept(Last(h.log).sends, Last(h.log).s) ==>
              Decide(h, a).sent == Wires(Last(h.log).sends, true, Last(h.log).s)
  {
    hide Kept, OfferedWires, Wires, Capturable, Offered, Wire;
    assert SignedDelta(Last(h.log).s, Last(h.log).s) == 0;
    if AllKept(Last(h.log).sends, Last(h.log).s) {
      AllKeptIsAll(Last(h.log).sends, Last(h.log).s, DEDUP_MAX_PACKETS);
    }
  }
}
