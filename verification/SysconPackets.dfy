/** Packets of the PSP system controller, `client/psp/syscon.c`: building, checking, exchanging. */
module SysconPackets {
  import opened Bytes

  type Packet = seq<u8>
  type Half = x: int | 0 <= x < 0x1_0000

  const ERR_DRAIN := 1
  const ERR_COMPLETE := 2
  const ERR_STATUS := 3
  const RESULT_RETRY := 4
  const FIFO_WORDS := 8
  const RETRY_LIMIT := 5
  const MAX_PARAMS := 12

  // ---------------------------------------------------------------- hashes

  function Sum(p: Packet): (s: nat)
    ensures s <= 0xFF * |p|
  {
    if p == [] then 0 else Sum(p[..|p| - 1]) + p[|p| - 1]
  }

  /** The low byte of the complemented sum. */
  function Hash(p: Packet): u8 {
    0xFF - Sum(p) % 0x100
  }

  /** A packet whose bytes, hash included, sum to 0xFF. */
  predicate SumsUp(p: Packet) {
    Sum(p) % 0x100 == 0xFF
  }

  lemma HashCompletes(p: Packet)
    ensures SumsUp(p + [Hash(p)])
  {
    assert (p + [Hash(p)])[..|p|] == p;
  }

  lemma OnlyTheHashCompletes(p: Packet, h: u8)
    ensures SumsUp(p + [h]) <==> h == Hash(p)
  {
    assert (p + [h])[..|p|] == p;
    assert Sum(p + [h]) == Sum(p) + h;
  }

  lemma {:induction false} ChangedSum(p: Packet, i: nat, b: u8)
    requires i < |p|
    ensures Sum(p[i := b]) == Sum(p) - p[i] + b
    decreases |p|
  {
    var q := p[i := b];
    var n := |p| - 1;
    if i == n {
      assert q[..n] == p[..n];
    } else {
      assert q[..n] == p[..n][i := b];
      ChangedSum(p[..n], i, b);
    }
  }

  // ---------------------------------------------------------------- requests

  /** [command][length][parameters][hash]. */
  function Request(cmd: u8, params: Packet): Packet
    requires |params| <= MAX_PARAMS
  {
    var body := [cmd, 2 + |params|] + params;
    body + [Hash(body)]
  }

  /** The command-only second phase. */
  function Poll(cmd: u8): Packet {
    [cmd, 2, Hash([cmd, 2])]
  }

  lemma PollIsAnEmptyRequest(cmd: u8)
    ensures Poll(cmd) == Request(cmd, [])
  {
    assert [cmd, 2] + [] == [cmd, 2];
  }

  /** Its length byte counts all but the hash, and the hash fits. */
  predicate WellFormed(p: Packet) {
    3 <= |p| <= 15 && p[1] == |p| - 1 && SumsUp(p)
  }

  lemma RequestsAreWellFormed(cmd: u8, params: Packet)
    requires |params| <= MAX_PARAMS
    ensures WellFormed(Request(cmd, params)) && Request(cmd, params)[0] == cmd
    ensures |Request(cmd, params)| == 3 + |params| && Request(cmd, params)[2..2 + |params|] == params
  {
    HashCompletes([cmd, 2 + |params|] + params);
  }

  function HalfWord(hi: u8, lo: u8): Half {
    (hi as int) * 0x100 + lo
  }

  /** The FIFO words of a packet, big-endian, an odd tail filled with 0xFF. */
  function Words(p: Packet): seq<Half>
    decreases |p|
  {
    if p == [] then [] else if |p| == 1 then [HalfWord(p[0], 0xFF)] else [HalfWord(p[0], p[1])] + Words(p[2..])
  }

  function BytesOf(ws: seq<Half>): (p: Packet)
    ensures |p| == 2 * |ws|
    decreases |ws|
  {
    if ws == [] then [] else [ws[0] / 0x100, ws[0] % 0x100] + BytesOf(ws[1..])
  }

  /** What arrives is what was sent, up to the filler. */
  lemma {:induction false} WordsCarryThePacket(p: Packet)
    ensures |Words(p)| == (|p| + 1) / 2
    ensures BytesOf(Words(p)) == p + if |p| % 2 == 1 then [0xFF] else []
    decreases |p|
  {
    if |p| >= 2 {
      WordsCarryThePacket(p[2..]);
      var ws := Words(p);
      assert ws[1..] == Words(p[2..]);
      SplitWord(p[0], p[1]);
      assert p == [p[0], p[1]] + p[2..];
    } else if |p| == 1 {
      SplitWord(p[0], 0xFF);
      assert Words(p)[1..] == [];
    }
  }

  /** Each word carries two bytes, the earlier one in its upper half. */
  lemma {:induction false} WordsAreBigEndian(p: Packet, k: nat)
    requires 2 * k < |p|
    ensures k < |Words(p)|
    ensures Words(p)[k] == 0x100 * (p[2 * k] as int) + if 2 * k + 1 < |p| then p[2 * k + 1] as int else 0xFF
    decreases k
  {
    if k > 0 {
      WordsAreBigEndian(p[2..], k - 1);
    }
  }

  lemma SplitWord(hi: u8, lo: u8)
    ensures HalfWord(hi, lo) / 0x100 == hi && HalfWord(hi, lo) % 0x100 == lo
  {
  }

  // ---------------------------------------------------------------- replies

  /** [status][length][code][payload][hash] at the start of what was received. */
  predicate ValidReply(rx: Packet) {
    && |rx| >= 4 && 3 <= rx[1] < 16 && rx[1] + 1 <= |rx|
    && rx[rx[1]] == Hash(rx[..rx[1]])
  }

  function ReplyOf(rx: Packet): (r: Packet)
    requires ValidReply(rx)
    ensures |r| == rx[1] + 1
  {
    rx[..rx[1] + 1]
  }

  /** Exactly the receptions whose leading packet sums up. */
  lemma ValidMeansSumsUp(rx: Packet)
    requires |rx| >= 4 && 3 <= rx[1] < 16 && rx[1] + 1 <= |rx|
    ensures ValidReply(rx) <==> SumsUp(rx[..rx[1] + 1])
  {
    var body := rx[..rx[1]];
    assert rx[..rx[1] + 1] == body + [rx[rx[1]]];
    OnlyTheHashCompletes(body, rx[rx[1]]);
  }

  /** Any change of one byte of a valid reply, except its length byte, is noticed. */
  lemma OneByteIsNoticed(rx: Packet, i: nat, b: u8)
    requires ValidReply(rx) && i <= rx[1] && i != 1 && b != rx[i]
    ensures !ValidReply(rx[i := b])
  {
    hide Sum;
    var n := rx[1] + 1;
    var q := rx[i := b];
    assert q[..n] == rx[..n][i := b];
    ValidMeansSumsUp(rx);
    ValidMeansSumsUp(q);
    ChangedSum(rx[..n], i, b);
    assert SumsUp(rx[..n]);
    assert (b as int) - rx[i] != 0 && -0x100 < (b as int) - rx[i] < 0x100;
  }

  lemma SumOf(p: Packet, b: u8)
    ensures Sum(p + [b]) == Sum(p) + b
  {
    assert (p + [b])[..|p|] == p;
  }

  lemma {:induction false} SumInParts(p: Packet, n: nat)
    requires n <= |p|
    ensures Sum(p) == Sum(p[..n]) + Sum(p[n..])
    decreases |p|
  {
    if n == |p| {
      assert p[..n] == p && p[n..] == [];
    } else {
      var m := |p| - 1;
      SumInParts(p[..m], n);
      assert p[..m][..n] == p[..n] && p[..m][n..] == p[n..][..m - n];
    }
  }

  /** What moving the end of a packet from byte `from` to byte `to` adds to its sum. */
  function Between(rx: Packet, from: nat, to: nat): int
    requires from < |rx| && to < |rx|
  {
    if from <= to then (Sum(rx[from + 1..to + 1]) as int) else 0 - (Sum(rx[to + 1..from + 1]) as int)
  }

  lemma SumUpTo(rx: Packet, from: nat, to: nat)
    requires from < |rx| && to < |rx|
    ensures Sum(rx[..to + 1]) == Sum(rx[..from + 1]) + Between(rx, from, to)
  {
    var lo, hi := if from <= to then from else to, if from <= to then to else from;
    SumInParts(rx[..hi + 1], lo + 1);
    assert rx[..hi + 1][..lo + 1] == rx[..lo + 1] && rx[..hi + 1][lo + 1..] == rx[lo + 1..hi + 1];
  }

  /** Exactly which changes of the length byte of a valid reply go unnoticed: to a length that is
      in range and covered by what was received, and whose added or dropped bytes, together with
      the change itself, come to a multiple of 256. */
  lemma LengthChangeUnnoticedExactly(rx: Packet, b: u8)
    requires ValidReply(rx)
    ensures ValidReply(rx[1 := b])
            <==> 3 <= b < 16 && b + 1 <= |rx| && ((b as int) - rx[1] + Between(rx, rx[1], b)) % 0x100 == 0
  {
    hide Sum, Hash, Between;
    var q := rx[1 := b];
    ValidMeansSumsUp(rx);
    if 3 <= b < 16 && b + 1 <= |rx| {
      ValidMeansSumsUp(q);
      assert q[..b + 1] == rx[..b + 1][1 := b];
      ChangedSum(rx[..b + 1], 1, b);
      SumUpTo(rx, rx[1], b);
      StillSumsUp(Sum(rx[..rx[1] + 1]), (b as int) - rx[1] + Between(rx, rx[1], b));
    }
  }

  lemma StillSumsUp(sum: int, change: int)
    requires sum % 0x100 == 0xFF
    ensures (sum + change) % 0x100 == 0xFF <==> change % 0x100 == 0
  {
  }

  /** A witness: this reply stays valid when it changes from 3 to 4. */
  lemma LengthByteIsNotProtected()
    ensures var rx := [0, 3, 0x82, 0x7A, 0xFF, 0xFF]; ValidReply(rx) && ValidReply(rx[1 := 4])
  {
    hide Sum;
    var rx: Packet := [0, 3, 0x82, 0x7A, 0xFF, 0xFF];
    var ry := rx[1 := 4];
    assert Sum([]) == 0 by { SumOfNothing(); }
    SumOf([], 0);
    SumOf([0], 3);
    SumOf([0, 3], 0x82);
    SumOf([0], 4);
    SumOf([0, 4], 0x82);
    SumOf([0, 4, 0x82], 0x7A);
    assert [] + [0] == [0] && [0] + [3] == [0, 3] && [0, 3] + [0x82] == [0, 3, 0x82];
    assert [0] + [4] == [0, 4] && [0, 4] + [0x82] == [0, 4, 0x82] && [0, 4, 0x82] + [0x7A] == [0, 4, 0x82, 0x7A];
    assert rx[..3] == [0, 3, 0x82] && ry[..4] == [0, 4, 0x82, 0x7A];
  }

  lemma SumOfNothing()
    ensures Sum([]) == 0
  {
  }
}
