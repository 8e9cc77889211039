/** The host's single-slot duplicate-request cache, `dedup.c`. */
module DedupCache {
  import opened Bytes

  type u64 = x: int | 0 <= x < 0x1_0000_0000_0000_0000

  /** A UDP payload. */
  type Packet = seq<u8>

  const NET_SEQ_MAGIC: Packet := [0x4b, 0x53, 0x51, 0x30]  // "KSQ0"
  const NET_SEQ_TRAILER_LEN := 8
  const DEDUP_WINDOW_USEC := 3_000_000
  const DEDUP_MAX_PACKETS := 64
  const DEDUP_MAX_PKT_BYTES := 2048

  // ---------------------------------------------------------------- the trailer

  function BE32(w: u32): (s: Packet)
    ensures |s| == 4
  {
    [w / 0x100_0000, w / 0x1_0000 % 0x100, w / 0x100 % 0x100, w % 0x100]
  }

  function FromBE32(s: Packet): u32
    requires |s| == 4
  {
    0x100_0000 * (s[0] as int) + 0x1_0000 * (s[1] as int) + 0x100 * (s[2] as int) + s[3] as int
  }

  /** Network byte order: the last byte is the last digit in base 256. */
  lemma BE32Digits(w: u32)
    ensures BE32(w) == BE32(w / 0x100)[1..] + [w % 0x100]
  {
    assert w / 0x100 / 0x100 == w / 0x1_0000 && w / 0x100 / 0x1_0000 == w / 0x100_0000;
  }

  lemma BE32RoundTrip(w: u32)
    ensures FromBE32(BE32(w)) == w
  {
    var lo := w / 0x100;
    var mid := lo / 0x100;
    assert w == 0x100 * lo + w % 0x100;
    assert lo == 0x100 * mid + lo % 0x100;
    assert w / 0x1_0000 == mid && w / 0x100_0000 == mid / 0x100;
  }

  function Trailer(s: u32): (t: Packet)
    ensures |t| == NET_SEQ_TRAILER_LEN
  {
    NET_SEQ_MAGIC + BE32(s)
  }

  /** The seq id at the end of a payload, if it carries one. */
  function ExtractSeq(buf: Packet): Option<u32> {
    if |buf| < NET_SEQ_TRAILER_LEN then None
    else
      var trailer := buf[|buf| - NET_SEQ_TRAILER_LEN..];
      if trailer[..4] != NET_SEQ_MAGIC then None else Some(FromBE32(trailer[4..]))
  }

  lemma TrailerIsExtracted(payload: Packet, s: u32)
    ensures ExtractSeq(payload + Trailer(s)) == Some(s)
  {
    var buf := payload + Trailer(s);
    assert buf[|buf| - NET_SEQ_TRAILER_LEN..] == Trailer(s);
    assert Trailer(s)[..4] == NET_SEQ_MAGIC && Trailer(s)[4..] == BE32(s);
    BE32RoundTrip(s);
  }

  lemma BE32OfValue(s: Packet)
    requires |s| == 4
    ensures BE32(FromBE32(s)) == s
  {
    var w := FromBE32(s);
    assert w / 0x100 == 0x1_0000 * (s[0] as int) + 0x100 * (s[1] as int) + s[2] as int;
    assert w / 0x1_0000 == 0x100 * (s[0] as int) + s[1] as int;
  }

  /** A payload carries a seq id exactly when its last eight bytes are that id's trailer. */
  lemma TrailerExactly(buf: Packet, s: u32)
    ensures ExtractSeq(buf) == Some(s)
            <==> |buf| >= NET_SEQ_TRAILER_LEN && buf[|buf| - NET_SEQ_TRAILER_LEN..] == Trailer(s)
    ensures ExtractSeq(buf).None?
            <==> |buf| < NET_SEQ_TRAILER_LEN || buf[|buf| - NET_SEQ_TRAILER_LEN..][..4] != NET_SEQ_MAGIC
  {
    hide BE32, FromBE32;
    if |buf| >= NET_SEQ_TRAILER_LEN {
      var t := buf[|buf| - NET_SEQ_TRAILER_LEN..];
      assert t == t[..4] + t[4..];
      BE32OfValue(t[4..]);
      BE32RoundTrip(s);
      assert Trailer(s)[..4] == NET_SEQ_MAGIC && Trailer(s)[4..] == BE32(s);
    }
  }

  // ---------------------------------------------------------------- the cache as a value

  datatype Cache = Cache(last: u32, capturedAt: u64, packets: seq<Packet>, packetCount: nat, valid: bool,
                         capturing: bool, captureSeq: u32, captureCount: nat)

  predicate CacheOk(c: Cache) {
    && |c.packets| == DEDUP_MAX_PACKETS
    && c.packetCount <= DEDUP_MAX_PACKETS
    && c.captureCount <= DEDUP_MAX_PACKETS
  }

  /** What a retransmit of `s` at time `now` is answered with, or None when the cache misses. */
  function Replay(c: Cache, s: u32, now: u64): Option<seq<Packet>>
    requires CacheOk(c)
  {
    if !c.valid || s != c.last then None
    else if (now - c.capturedAt) % 0x1_0000_0000_0000_0000 > DEDUP_WINDOW_USEC then None
    else Some(c.packets[..c.packetCount])
  }

  /** The difference of two seq ids as a signed 32-bit number. */
  function SignedDelta(a: u32, b: u32): i32 {
    var d := Wrap32(a - b);
    if d < 0x8000_0000 then d else d - 0x1_0000_0000
  }

  predicate IsStale(c: Cache, s: u32) {
    c.valid && SignedDelta(s, c.last) <= 0
  }

  function Begin(c: Cache, s: u32, now: u64): Cache {
    c.(capturing := true, captureSeq := s, captureCount := 0, capturedAt := now)
  }

  predicate Capturable(p: Packet) {
    0 < |p| <= DEDUP_MAX_PKT_BYTES
  }

  function Capture(c: Cache, p: Packet): Cache
    requires CacheOk(c)
  {
    if !c.capturing || !Capturable(p) || c.captureCount >= DEDUP_MAX_PACKETS then c
    else c.(packets := c.packets[c.captureCount := p], captureCount := c.captureCount + 1)
  }

  function End(c: Cache): Cache {
    if !c.capturing then c
    else c.(last := c.captureSeq, packetCount := c.captureCount, valid := true, capturing := false)
  }

  // ---------------------------------------------------------------- whole captures

  function CaptureAll(c: Cache, ps: seq<Packet>): (r: Cache)
    requires CacheOk(c)
    ensures CacheOk(r)
    ensures r.capturing == c.capturing && r.captureSeq == c.captureSeq && r.capturedAt == c.capturedAt
    ensures r.valid == c.valid && r.last == c.last && r.packetCount == c.packetCount
    decreases |ps|
  {
    if ps == [] then c else CaptureAll(Capture(c, ps[0]), ps[1..])
  }

  /** The packets of a dispatch that are worth keeping: the first ones that fit, in order. */
  function Kept(ps: seq<Packet>, room: nat): (r: seq<Packet>)
    ensures |r| <= room
    ensures forall p :: p in r ==> p in ps && Capturable(p)
    decreases |ps|
  {
    if ps == [] || room == 0 then []
    else if Capturable(ps[0]) then [ps[0]] + Kept(ps[1..], room - 1)
    else Kept(ps[1..], room)
  }

  lemma {:induction false} CaptureAllKeeps(c: Cache, ps: seq<Packet>)
    requires CacheOk(c) && c.capturing
    ensures var r := CaptureAll(c, ps);
            var kept := Kept(ps, DEDUP_MAX_PACKETS - c.captureCount);
            && r.captureCount == c.captureCount + |kept|
            && r.packets[..r.captureCount] == c.packets[..c.captureCount] + kept
            && r.packets[r.captureCount..] == c.packets[r.captureCount..]
    decreases |ps|
  {
    if ps != [] {
      var d := Capture(c, ps[0]);
      CaptureAllKeeps(d, ps[1..]);
      if Capturable(ps[0]) && c.captureCount < DEDUP_MAX_PACKETS {
        assert d.packets[..d.captureCount] == c.packets[..c.captureCount] + [ps[0]];
        var r := CaptureAll(c, ps);
        assert d.packets[r.captureCount..] == c.packets[r.captureCount..];
      } else if c.captureCount == DEDUP_MAX_PACKETS {
        assert Kept(ps, 0) == [] && Kept(ps[1..], 0) == [];
      }
    } else {
      assert c.packets[..c.captureCount] + [] == c.packets[..c.captureCount];
    }
  }

  /** One whole dispatch of seq `s` that sent `ps`. */
  function Dispatched(c: Cache, s: u32, now: u64, ps: seq<Packet>): (r: Cache)
    requires CacheOk(c)
    ensures CacheOk(r)
  {
    End(CaptureAll(Begin(c, s, now), ps))
  }

  /** A retransmit within the window gets, byte for byte and in order, the first packets of the
      dispatch that fit; any other seq, or a later time, gets nothing. */
  lemma ReplayIsTheDispatch(c: Cache, s: u32, at: u64, ps: seq<Packet>, t: u32, now: u64)
    requires CacheOk(c)
    ensures var r := Dispatched(c, s, at, ps);
            && r.valid && r.last == s && !r.capturing
            && r.packets[..r.packetCount] == Kept(ps, DEDUP_MAX_PACKETS)
            && Replay(r, t, now) == if t == s && (now - at) % 0x1_0000_0000_0000_0000 <= DEDUP_WINDOW_USEC
                                    then Some(Kept(ps, DEDUP_MAX_PACKETS)) else None
  {
    CaptureAllKeeps(Begin(c, s, at), ps);
  }

  /** Until an abandoned dispatch has sent anything that fits, the previous reply survives it. */
  lemma AbandonedBeforeSending(c: Cache, s: u32, at: u64, ps: seq<Packet>)
    requires CacheOk(c) && c.valid && Kept(ps, DEDUP_MAX_PACKETS) == []
    ensures Replay(CaptureAll(Begin(c, s, at), ps), c.last, at) == Some(c.packets[..c.packetCount])
  {
    var r := CaptureAll(Begin(c, s, at), ps);
    CaptureAllKeeps(Begin(c, s, at), ps);
    assert r.captureCount == 0 && r.packets[0..] == r.packets && c.packets[0..] == c.packets;
  }

  function Min(a: nat, b: nat): nat {
    if a <= b then a else b
  }

  /** What a previous reply of `count` packets looks like under the packets an abandoned dispatch kept. */
  function Overlaid(kept: seq<Packet>, reply: seq<Packet>): seq<Packet> {
    kept[..Min(|kept|, |reply|)] + reply[Min(|kept|, |reply|)..]
  }

  lemma OverlaidIsIntact(kept: seq<Packet>, reply: seq<Packet>)
    ensures Overlaid(kept, reply) == reply
            <==> kept[..Min(|kept|, |reply|)] == reply[..Min(|kept|, |reply|)]
  {
    var m := Min(|kept|, |reply|);
    assert reply == reply[..m] + reply[m..];
    if Overlaid(kept, reply) == reply {
      assert kept[..m] == Overlaid(kept, reply)[..m] == reply[..m];
    }
  }

  lemma OverwrittenPackets(now: seq<Packet>, was: seq<Packet>, kept: seq<Packet>, count: nat)
    requires |kept| <= |was| == |now| && count <= |was|
    requires now[..|kept|] == kept && now[|kept|..] == was[|kept|..]
    ensures now[..count] == Overlaid(kept, was[..count])
  {
    assert now == kept + was[|kept|..];
    if count <= |kept| {
      assert now[..count] == kept[..count] && was[..count][count..] == [];
    } else {
      assert now[..count] == kept + was[|kept|..count] && was[..count][|kept|..] == was[|kept|..count]
             && kept[..|kept|] == kept;
    }
  }

  lemma KeptInFront(c: Cache, s: u32, at: u64, ps: seq<Packet>)
    requires CacheOk(c)
    ensures var r := CaptureAll(Begin(c, s, at), ps); var kept := Kept(ps, DEDUP_MAX_PACKETS);
            && |r.packets| == |c.packets| == DEDUP_MAX_PACKETS
            && r.packets[..|kept|] == kept && r.packets[|kept|..] == c.packets[|kept|..]
  {
    hide CaptureAll, Kept;
    CaptureAllKeeps(Begin(c, s, at), ps);
    assert c.packets[..0] == [];
  }

  /** After that the previous request is answered with the abandoned dispatch's packets laid over
      its own: intact exactly when the two agree as far as both go. */
  lemma AbandonedAfterSending(c: Cache, s: u32, at: u64, ps: seq<Packet>, now: u64)
    requires CacheOk(c) && c.valid && (now - at) % 0x1_0000_0000_0000_0000 <= DEDUP_WINDOW_USEC
    ensures var r := CaptureAll(Begin(c, s, at), ps);
            var reply, kept := c.packets[..c.packetCount], Kept(ps, DEDUP_MAX_PACKETS);
            var m := Min(|kept|, |reply|);
            && Replay(r, c.last, now) == Some(Overlaid(kept, reply))
            && (Replay(r, c.last, now) == Some(reply) <==> kept[..m] == reply[..m])
  {
    hide CaptureAll, Kept, Overlaid, Min;
    var r := CaptureAll(Begin(c, s, at), ps);
    var reply, kept := c.packets[..c.packetCount], Kept(ps, DEDUP_MAX_PACKETS);
    KeptInFront(c, s, at, ps);
    OverwrittenPackets(r.packets, c.packets, kept, c.packetCount);
    OverlaidIsIntact(kept, reply);
    assert Replay(r, c.last, now) == Some(r.packets[..c.packetCount]) == Some(Overlaid(kept, reply));
  }

  // ---------------------------------------------------------------- the cache in place

  class DedupState {
    var last: u32
    var capturedAt: u64
    const packets: array<Packet>
    var packetCount: nat
    var valid: bool
    var capturing: bool
    var captureSeq: u32
    var captureCount: nat

    function State(): Cache
      reads this, packets
    {
      Cache(last, capturedAt, packets[..], packetCount, valid, capturing, captureSeq, captureCount)
    }

    predicate Valid()
      reads this, packets
    {
      CacheOk(State())
    }

    constructor ()
      ensures Valid() && fresh(packets)
      ensures !valid && !capturing
    {
      packets := new Packet[DEDUP_MAX_PACKETS](_ => []);
      last, capturedAt, packetCount, valid := 0, 0, 0, false;
      capturing, captureSeq, captureCount := false, 0, 0;
    }

    /** Sends the stored packets one by one through the socket; `sent` is what went out. */
    method TryReplay(s: u32, now: u64) returns (hit: bool, sent: seq<Packet>)
      requires Valid()
      ensures hit == Replay(State(), s, now).Some?
      ensures sent == if hit then Replay(State(), s, now).value else []
    {
      sent := [];
      if !valid || s != last {
        return false, [];
      }
      if (now - capturedAt) % 0x1_0000_0000_0000_0000 > DEDUP_WINDOW_USEC {
        return false, [];
      }
      for i := 0 to packetCount
        invariant sent == packets[..i]
      {
        sent := sent + [packets[i]];
      }
      return true, sent;
    }

    method BeginCapture(s: u32, now: u64)
      requires Valid()
      modifies this
      ensures Valid() && State() == Begin(old(State()), s, now)
    {
      capturing := true;
      captureSeq := s;
      captureCount := 0;
      capturedAt := now;
    }

    method CapturePkt(p: Packet)
      requires Valid()
      modifies this`captureCount, packets
      ensures Valid() && State() == Capture(old(State()), p)
      ensures var kept := capturing && 1 <= |p| <= 2048 && old(captureCount) < 64;
              && captureCount == old(captureCount) + (if kept then 1 else 0)
              && packets[..] == if kept then old(packets[..])[old(captureCount) := p] else old(packets[..])
    {
      if !capturing || |p| == 0 {
        return;
      }
      if captureCount >= DEDUP_MAX_PACKETS {
        return;
      }
      if |p| > DEDUP_MAX_PKT_BYTES {
        return;
      }
      packets[captureCount] := p;
      captureCount := captureCount + 1;
    }

    method EndCapture()
      requires Valid()
      modifies this
      ensures Valid() && State() == End(old(State()))
    {
      if !capturing {
        return;
      }
      last := captureSeq;
      packetCount := captureCount;
      valid := true;
      capturing := false;
    }
  }
}
