/** `ee_sif_send_cmd`: a command packet for the IOP, optionally behind a separate payload. */
module SifCommands {
  import opened Bytes
  import opened SifStream
  import F = SifFifo
  import opened SifEngine
  import opened SifTransfers

  /** The stored form of a 32-bit size. */
  function ToInt32(x: u32): i32 {
    if x < 0x8000_0000 then x else x - 0x1_0000_0000
  }

  /** The packet header: packet size, 24-bit payload size, payload destination (or 0) and command id. */
  function Header(packetSize: u32, extraSize: u32, extraDest: u32, cid: u32): (h: seq<u8>)
    ensures |h| == 12
  {
    [packetSize % 0x100] + LE32(extraSize % 0x100_0000)[..3] + LE32(if extraSize != 0 then extraDest else 0) + LE32(cid)
  }

  /** EE memory after the packet header is filled in. */
  function FilledHeader(ee: EeMemory, packet: u32, packetSize: u32, extraSize: u32, extraDest: u32,
      cid: u32): EeMemory {
    var header := Header(packetSize, extraSize, extraDest, cid);
    (a: u32) => var k := Wrap32(a - packet); if k < 12 then header[k] else ee(a)
  }

  /** A command packet in IOP memory: its own size, the 24-bit payload size, where the payload went (0
      without one), the command id, and from byte 12 on what the caller had put there. */
  ghost predicate HoldsCommand(iop: F.IopMemory, at: nat, cid: u32, packet: u32, packetSize: u32, extraSize: u32,
      extraDest: u32, ee: EeMemory) {
    forall a | at <= a < at + packetSize && a in iop ::
      var k: nat := a - at;
      iop[a] == if k == 0 then packetSize % 0x100
                else if k < 4 then LE32(extraSize)[k - 1]
                else if k < 8 then (if extraSize == 0 then 0 else LE32(extraDest)[k - 4])
                else if k < 12 then LE32(cid)[k - 8]
                else ee(Wrap32(packet + k))
  }

  /** The payload in IOP memory, but for what the command's 128 bytes cover. */
  ghost predicate HoldsPayload(iop: F.IopMemory, command: nat, extraSrc: u32, extraDest: u32, extraSize: u32,
      ee: EeMemory) {
    var at := extraDest % PHYS_SPAN;
    forall a | at <= a < at + extraSize && a in iop && !(command <= a < command + 128) ::
      iop[a] == ee(Wrap32(extraSrc + (a - at)))
  }

  /** The header is all that changes in EE memory. */
  lemma HeaderBytes(ee: EeMemory, packet: u32, packetSize: u32, extraSize: u32, extraDest: u32, cid: u32, a: u32)
    requires packetSize < 0x100
    ensures var k := (a - packet) % 0x1_0000_0000;
            FilledHeader(ee, packet, packetSize, extraSize, extraDest, cid)(a)
            == if k == 0 then packetSize
               else if k < 4 then LE32(extraSize)[k - 1]
               else if k < 8 then (if extraSize == 0 then 0 else LE32(extraDest)[k - 4])
               else if k < 12 then LE32(cid)[k - 8]
               else ee(a)
  {
    hide LE32, Header;
    HeaderDigits(packetSize, extraSize, extraDest, cid);
    var f := FilledHeader(ee, packet, packetSize, extraSize, extraDest, cid);
    var h := Header(packetSize, extraSize, extraDest, cid);
    var k: nat := Wrap32(a - packet);
    assert f(a) == if k < 12 then h[k] else ee(a);
    if 1 <= k < 4 {
      assert h[k] == LE32(extraSize)[k - 1];
    } else if 4 <= k < 8 {
      assert h[k] == if extraSize == 0 then 0 else LE32(extraDest)[k - 4];
    } else if 8 <= k < 12 {
      assert h[k] == LE32(cid)[k - 8];
    }
  }

  lemma HeaderDigits(packetSize: u32, extraSize: u32, extraDest: u32, cid: u32)
    requires packetSize < 0x100
    ensures var h := Header(packetSize, extraSize, extraDest, cid);
            && h[0] == packetSize
            && (forall k | 1 <= k < 4 :: h[k] == LE32(extraSize)[k - 1])
            && (forall k | 4 <= k < 8 :: h[k] == if extraSize == 0 then 0 else LE32(extraDest)[k - 4])
            && (forall k | 8 <= k < 12 :: h[k] == LE32(cid)[k - 8])
  {
    hide LE32;
    LowThreeBytes(extraSize);
    LE32Zero();
    var size := LE32(extraSize % 0x100_0000)[..3];
    assert forall k | 0 <= k < 3 :: size[k] == LE32(extraSize)[..3][k];
  }

  lemma LE32Zero()
    ensures LE32(0) == [0, 0, 0, 0]
  {
  }

  lemma LowThreeBytes(x: u32)
    ensures LE32(x % 0x100_0000)[..3] == LE32(x)[..3]
  {
    var r, h := x % 0x100_0000, x / 0x100_0000;
    HigherBytes(r, 0x1_0000 * h);
    HigherBytes(r / 0x100, 0x100 * h);
    HigherBytes(r / 0x1_0000, h);
    TwoBytesDown(x);
    TwoBytesDown(r);
  }

  lemma HigherBytes(low: nat, high: nat)
    ensures (low + 0x100 * high) % 0x100 == low % 0x100 && (low + 0x100 * high) / 0x100 == low / 0x100 + high
  {
  }

  lemma TwoBytesDown(x: nat)
    ensures x / 0x100 / 0x100 == x / 0x1_0000
  {
  }

  /** The transfer list: the payload, if any, goes before the packet. */
  function CommandList(packet: u32, packetSize: u32, extraSrc: u32, extraDest: u32, extraSize: u32,
      subaddr: u32): seq<Descriptor> {
    (if extraSize != 0 then [Descriptor(extraSrc, extraDest, ToInt32(extraSize), 0)] else [])
    + [Descriptor(packet, subaddr, ToInt32(packetSize), SIF_SEND_ATTR)]
  }

  lemma DeliveredBytes(m: F.IopMemory, d: Descriptor, ee: EeMemory, subaddr: u32, a: int)
    requires DescriptorOk(d, subaddr) && a in m
    ensures var r := F.Deliver(m, Requested(d, ee, subaddr));
            && a in r
            && (Dest(d) <= a < Dest(d) + d.size ==> r[a] == ee(Wrap32(d.src + (a - Dest(d)))))
            && (!(Dest(d) <= a < Dest(d) + QuadBytes(d, subaddr)) ==> r[a] == m[a])
  {
    BlockRoundsUp(d, subaddr);
  }

  lemma ListIs(packet: u32, packetSize: u32, extraSrc: u32, extraDest: u32, extraSize: u32, subaddr: u32)
    requires packetSize <= CMD_PACKET_MAX && subaddr != 0
    ensures var list := CommandList(packet, packetSize, extraSrc, extraDest, extraSize, subaddr);
            && |list| == (if extraSize != 0 then 2 else 1)
            && list[|list| - 1] == Descriptor(packet, subaddr, packetSize, SIF_SEND_ATTR)
            && QuadBytes(list[|list| - 1], subaddr) <= 128 && Dest(list[|list| - 1]) == subaddr % PHYS_SPAN
            && (Acceptable(list, subaddr) && extraSize != 0
                ==> extraSize < 0x8000_0000 && list[0] == Descriptor(extraSrc, extraDest, extraSize, 0))
            && (Acceptable(list, subaddr) ==> forall i | 0 <= i < |list| :: DescriptorOk(list[i], subaddr))
  {
    var list := CommandList(packet, packetSize, extraSrc, extraDest, extraSize, subaddr);
    if Acceptable(list, subaddr) {
      assert DescriptorOk(list[0], subaddr);
    }
  }

  /** What an accepted command leaves in IOP memory. */
  lemma CommandArrives(m: F.IopMemory, cid: u32, packet: u32, packetSize: u32, extraSrc: u32, extraDest: u32,
      extraSize: u32, subaddr: u32, ee: EeMemory)
    requires 0 < packetSize <= CMD_PACKET_MAX && subaddr != 0
    requires Acceptable(CommandList(packet, packetSize, extraSrc, extraDest, extraSize, subaddr), subaddr)
    ensures var filled := FilledHeader(ee, packet, packetSize, extraSize, extraDest, cid);
            var list := CommandList(packet, packetSize, extraSrc, extraDest, extraSize, subaddr);
            var iop := F.DeliverAll(m, RequestedAll(list, filled, subaddr));
            && HoldsCommand(iop, subaddr % PHYS_SPAN, cid, packet, packetSize, extraSize, extraDest, ee)
            && HoldsPayload(iop, subaddr % PHYS_SPAN, extraSrc, extraDest, extraSize, filled)
  {
    hide FilledHeader, CommandList, F.Deliver, F.DeliverAll, Requested, RequestedAll, QuadBytes;
    hide Acceptable, DescriptorOk;
    var filled := FilledHeader(ee, packet, packetSize, extraSize, extraDest, cid);
    var list := CommandList(packet, packetSize, extraSrc, extraDest, extraSize, subaddr);
    ListIs(packet, packetSize, extraSrc, extraDest, extraSize, subaddr);
    var last := list[|list| - 1];
    var before := if extraSize != 0 then F.Deliver(m, Requested(list[0], filled, subaddr)) else m;
    LastDelivery(m, list, filled, subaddr);
    var iop := F.Deliver(before, Requested(last, filled, subaddr));
    SameDomain(before, Requested(last, filled, subaddr));
    var at := subaddr % PHYS_SPAN;
    forall a | at <= a < at + packetSize && a in iop
      ensures iop[a] == filled(Wrap32(packet + (a - at)))
    {
      DeliveredBytes(before, last, filled, subaddr, a);
    }
    CommandBytes(iop, at, cid, packet, packetSize, extraSize, extraDest, ee);
    if extraSize != 0 {
      SameDomain(m, Requested(list[0], filled, subaddr));
      forall a | extraDest % PHYS_SPAN <= a < extraDest % PHYS_SPAN + extraSize && a in iop
                 && !(at <= a < at + 128)
        ensures iop[a] == filled(Wrap32(extraSrc + (a - extraDest % PHYS_SPAN)))
      {
        DeliveredBytes(m, list[0], filled, subaddr, a);
        DeliveredBytes(before, last, filled, subaddr, a);
      }
    }
  }

  lemma SameDomain(m: F.IopMemory, r: Record)
    ensures F.Deliver(m, r).Keys == m.Keys
  {
  }

  lemma LastDelivery(m: F.IopMemory, list: seq<Descriptor>, ee: EeMemory, subaddr: u32)
    requires 1 <= |list| <= 2
    ensures F.DeliverAll(m, RequestedAll(list, ee, subaddr))
         == F.Deliver(if |list| == 2 then F.Deliver(m, Requested(list[0], ee, subaddr)) else m,
                      Requested(list[|list| - 1], ee, subaddr))
  {
    hide Requested, F.Deliver;
    var rs := RequestedAll(list, ee, subaddr);
    if |list| == 2 {
      assert rs == [Requested(list[0], ee, subaddr)] + [Requested(list[1], ee, subaddr)];
      F.DeliverInParts(m, [rs[0]], [rs[1]]);
      F.DeliverAll1(m, rs[0]);
      F.DeliverAll1(F.Deliver(m, rs[0]), rs[1]);
    } else {
      assert rs == [Requested(list[0], ee, subaddr)];
      F.DeliverAll1(m, rs[0]);
    }
  }

  lemma CommandBytes(iop: F.IopMemory, at: nat, cid: u32, packet: u32, packetSize: u32, extraSize: u32,
      extraDest: u32, ee: EeMemory)
    requires packetSize < 0x100
    requires forall a | at <= a < at + packetSize && a in iop ::
               iop[a] == FilledHeader(ee, packet, packetSize, extraSize, extraDest, cid)(Wrap32(packet + (a - at)))
    ensures HoldsCommand(iop, at, cid, packet, packetSize, extraSize, extraDest, ee)
  {
    hide FilledHeader, LE32;
    forall a | at <= a < at + packetSize && a in iop
      ensures var k: nat := a - at;
              iop[a] == if k == 0 then packetSize % 0x100
                        else if k < 4 then LE32(extraSize)[k - 1]
                        else if k < 8 then (if extraSize == 0 then 0 else LE32(extraDest)[k - 4])
                        else if k < 12 then LE32(cid)[k - 8]
                        else ee(Wrap32(packet + k))
    {
      HeaderBytes(ee, packet, packetSize, extraSize, extraDest, cid, Wrap32(packet + (a - at)));
      WrappedDistance(packet, a - at);
    }
  }

  lemma WrappedDistance(base: u32, k: nat)
    requires k < 0x100
    ensures (Wrap32(base + k) - base) % 0x1_0000_0000 == k
  {
  }

  method SendCmd(e: DmaEngine, cid: u32, packet: u32, packetSize: u32, extraSrc: u32, extraDest: u32, extraSize: u32,
                 ee: EeMemory, progress: nat -> nat)
    returns (rc: int, ghost accepted: bool)
    requires e.Valid()
    modifies e, e.jobs, e.queue, set b | b in e.streams
    ensures e.Valid() && e.subaddr == old(e.subaddr)
    ensures rc == 0 || rc == -1
    ensures packetSize == 0 || packetSize > CMD_PACKET_MAX || e.subaddr == 0 ==> rc == -1
    ensures var list := CommandList(packet, packetSize, extraSrc, extraDest, extraSize, e.subaddr);
            && (accepted <==> 0 < packetSize <= CMD_PACKET_MAX && e.subaddr != 0 && Acceptable(list, e.subaddr)
                              && !F.Full(F.Pump(old(Queue(e)))))
            && Final(e) == if accepted then
                  F.DeliverAll(old(Final(e)), RequestedAll(list,
                      FilledHeader(ee, packet, packetSize, extraSize, extraDest, cid), e.subaddr))
                else old(Final(e))
    ensures rc == 0 ==> accepted && Settled(e)
    ensures accepted ==>
              && HoldsCommand(Final(e), e.subaddr % PHYS_SPAN, cid, packet, packetSize, extraSize, extraDest, ee)
              && HoldsPayload(Final(e), e.subaddr % PHYS_SPAN, extraSrc, extraDest, extraSize,
                     FilledHeader(ee, packet, packetSize, extraSize, extraDest, cid))
  {
    hide HoldsCommand, HoldsPayload;
    hide e.Valid, Final, Queue, Settled, F.DeliverAll, F.Full, F.Pump, Acceptable, FilledHeader, RequestedAll;
    if packetSize == 0 || packetSize > CMD_PACKET_MAX || e.subaddr == 0 {
      return -1, false;
    }
    var filled := FilledHeader(ee, packet, packetSize, extraSize, extraDest, cid);
    var dmat, count := ListCommand(packet, packetSize, extraSrc, extraDest, extraSize, e.subaddr);
    ghost var m := Final(e);
    rc, accepted := SubmitAndWait(e, dmat, count, filled, progress);
    if accepted {
      CommandArrives(m, cid, packet, packetSize, extraSrc, extraDest, extraSize, e.subaddr, ee);
    }
  }

  method ListCommand(packet: u32, packetSize: u32, extraSrc: u32, extraDest: u32, extraSize: u32, subaddr: u32)
    returns (dmat: array<Descriptor>, count: i32)
    ensures fresh(dmat) && 1 <= count <= dmat.Length == 2
    ensures dmat[..count] == CommandList(packet, packetSize, extraSrc, extraDest, extraSize, subaddr)
  {
    dmat := new Descriptor[2](_ => Descriptor(0, 0, 0, 0));
    count := 0;
    if extraSize != 0 {
      dmat[count] := Descriptor(extraSrc, extraDest, ToInt32(extraSize), 0);
      count := count + 1;
    }
    dmat[count] := Descriptor(packet, subaddr, ToInt32(packetSize), SIF_SEND_ATTR);
    count := count + 1;
  }

  /** Where a payload's and a command's records lie. */
  lemma TwoRecords(list: seq<Descriptor>, subaddr: u32)
    requires |list| == 2 && subaddr != 0 && Dest(list[1]) == subaddr
    ensures QuadBytes(list[1], subaddr) == SIF_CMD_RECV_BLOCK
    ensures RecordOffset(list, subaddr, 0) == 32
    ensures RecordOffset(list, subaddr, 1) == 48 + QuadBytes(list[0], subaddr)
    ensures RecordOffset(list, subaddr, 2) == 64 + QuadBytes(list[0], subaddr) + SIF_CMD_RECV_BLOCK
  {
    assert QuadBytes(list[1], subaddr) == SIF_CMD_RECV_BLOCK;
    hide QuadBytes;
    assert RecordOffset(list, subaddr, 1) == RecordOffset(list, subaddr, 0) + 16 + QuadBytes(list[0], subaddr);
  }

  /** Exactly which payloads compile behind a command: one for elsewhere if, rounded up to
      quadwords, it has at most 832 bytes; one for the command buffer if it fits its 128 bytes. */
  lemma PayloadLimit(packet: u32, packetSize: u32, extraSrc: u32, extraDest: u32, extraSize: u32, subaddr: u32)
    requires 1 <= packetSize <= CMD_PACKET_MAX && packet != 0 && 0 < subaddr < PHYS_SPAN && 0 < extraSize
    ensures var list := CommandList(packet, packetSize, extraSrc, extraDest, extraSize, subaddr);
            Acceptable(list, subaddr)
            <==> extraSrc != 0
                 && if extraDest % PHYS_SPAN == subaddr then extraSize <= SIF_CMD_RECV_BLOCK
                     else Quads(extraSize) <= 832
  {
    var list := CommandList(packet, packetSize, extraSrc, extraDest, extraSize, subaddr);
    var q := QuadBytes(list[0], subaddr);
    TwoRecords(list, subaddr);
    hide RecordOffset;
    if extraDest % PHYS_SPAN == subaddr {
      assert q == SIF_CMD_RECV_BLOCK;
    } else if extraSize < 0x8000_0000 {
      assert q == Quads(extraSize);
    } else {
      assert list[0].size < 0;
    }
  }

  /** Without a payload a command always compiles. */
  lemma BareCommandCompiles(packet: u32, packetSize: u32, subaddr: u32)
    requires 1 <= packetSize <= CMD_PACKET_MAX && packet != 0 && 0 < subaddr < PHYS_SPAN
    ensures Acceptable(CommandList(packet, packetSize, 0, 0, 0, subaddr), subaddr)
  {
    var list := CommandList(packet, packetSize, 0, 0, 0, subaddr);
    assert |list| == 1 && QuadBytes(list[0], subaddr) == SIF_CMD_RECV_BLOCK;
    assert RecordOffset(list, subaddr, 0) == 16;
    assert RecordOffset(list, subaddr, 1) == 32 + SIF_CMD_RECV_BLOCK;
  }

  /** The command's own record raises the interrupt and ends the transfer; the payload's does neither. */
  lemma OnlyTheCommandInterrupts(packet: u32, packetSize: u32, extraSrc: u32, extraDest: u32, extraSize: u32,
      subaddr: u32, ee: EeMemory)
    ensures var list := CommandList(packet, packetSize, extraSrc, extraDest, extraSize, subaddr);
            var rs := RequestedAll(list, ee, subaddr);
            && rs != [] && rs[|rs| - 1].interrupt && rs[|rs| - 1].end
            && forall i | 0 <= i < |rs| - 1 :: !rs[i].interrupt && !rs[i].end
  {
    var list := CommandList(packet, packetSize, extraSrc, extraDest, extraSize, subaddr);
    assert list[|list| - 1].attr == 0x44 && forall i | 0 <= i < |list| - 1 :: list[i].attr == 0;
  }

  /** The payload reaches IOP memory before the command does. */
  lemma PayloadBeforeCommand(m: F.IopMemory, packet: u32, packetSize: u32, extraSrc: u32, extraDest: u32,
      extraSize: u32, subaddr: u32, ee: EeMemory)
    requires extraSize != 0
    ensures var list := CommandList(packet, packetSize, extraSrc, extraDest, extraSize, subaddr);
            (F.DeliverAll(m, RequestedAll(list, ee, subaddr))
             == F.Deliver(F.Deliver(m, Requested(list[0], ee, subaddr)), Requested(list[1], ee, subaddr)))
  {
    hide Requested, F.Deliver;
    var list := CommandList(packet, packetSize, extraSrc, extraDest, extraSize, subaddr);
    var a, b := Requested(list[0], ee, subaddr), Requested(list[1], ee, subaddr);
    assert RequestedAll(list, ee, subaddr) == [a] + [b];
    F.DeliverInParts(m, [a], [b]);
    F.DeliverAll1(m, a);
    F.DeliverAll1(F.Deliver(m, a), b);
  }
}
