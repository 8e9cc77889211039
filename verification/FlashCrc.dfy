/** The block checksum of the Dreamcast flashrom, `flashrom_crc` in `client/dreamcast/target.c`. */
module FlashCrc {

  type Byte = bv8

  const BLOCK_SIZE := 64
  const OFFSET_CRC := 62
  const POLYNOMIAL: bv16 := 0x1021   // x^16 + x^12 + x^5 + 1

  // ---------------------------------------------------------------- the reference

  function Xor(x: bv16, y: bv16): bv16 {
    x ^ y
  }

  function Up(x: bv16): bv16 {
    x << 1
  }

  predicate Top(x: bv16) {
    x & 0x8000 != 0
  }

  function Wide(b: Byte): bv16 {
    b as bv16
  }

  function High(b: Byte): bv16 {
    (b as bv16) << 8
  }

  /** One bit of the CRC. */
  function Shift(x: bv16): bv16 {
    if Top(x) then Xor(Up(x), POLYNOMIAL) else Up(x)
  }

  function Shift4(x: bv16): bv16 {
    Shift(Shift(Shift(Shift(x))))
  }

  function Shift8(x: bv16): bv16 {
    Shift4(Shift4(x))
  }

  /** The register after one more message byte. */
  function Feed(x: bv16, b: Byte): bv16 {
    Shift8(Xor(x, High(b)))
  }

  function Register(x: bv16, data: seq<Byte>): bv16
    decreases |data|
  {
    if data == [] then x else Register(Feed(x, data[0]), data[1..])
  }

  function Not(x: bv16): bv16 {
    !x
  }

  /** The 16-bit CRC with initial value 0xFFFF and final complement. */
  function Crc(data: seq<Byte>): bv16 {
    Not(Register(0xFFFF, data))
  }

  /** The published check value of this CRC (initial value 0xFFFF, polynomial 0x1021, complemented): the CRC
      of the ASCII digits 1 to 9. */
  lemma CheckValue()
    ensures Crc([0x31, 0x32, 0x33, 0x34, 0x35, 0x36, 0x37, 0x38, 0x39]) == 0xD64E
  {
    hide Feed;
    FirstDigits();
    LastDigits();
    assert Register(0x29B1, []) == 0x29B1;
  }

  lemma FirstDigits()
    ensures Feed(0xFFFF, 0x31) == 0xC782
    ensures Feed(0xC782, 0x32) == 0x3DBA
    ensures Feed(0x3DBA, 0x33) == 0x5BCE
    ensures Feed(0x5BCE, 0x34) == 0x5349
    ensures Feed(0x5349, 0x35) == 0x4560
  {
  }

  lemma LastDigits()
    ensures Feed(0x4560, 0x36) == 0x2EF4
    ensures Feed(0x2EF4, 0x37) == 0x7718
    ensures Feed(0x7718, 0x38) == 0xA12B
    ensures Feed(0xA12B, 0x39) == 0x29B1
  {
  }

  // ---------------------------------------------------------------- the loop

  /** One bit of the unmasked 32-bit accumulator. */
  function WideShift(n: bv32): bv32 {
    if n & 0x8000 != 0 then (n << 1) ^ 4129 else n << 1
  }

  function Mix(n: bv32, b: Byte): bv32 {
    n ^ ((b as bv32) << 8)
  }

  function Low(n: bv32): bv16 {
    (n & 0xFFFF) as bv16
  }

  lemma LowTopBit(n: bv32)
    ensures Top(Low(n)) <==> n & 0x8000 != 0
  {
  }

  lemma LowDoubles(n: bv32)
    ensures Low(n << 1) == Up(Low(n)) && Low((n << 1) ^ 4129) == Xor(Up(Low(n)), POLYNOMIAL)
  {
  }

  /** What happens above bit 15 never comes back down. */
  lemma WideShiftIsShift(n: bv32)
    ensures Low(WideShift(n)) == Shift(Low(n))
  {
    hide Low, Xor, Up, Top;
    LowTopBit(n);
    LowDoubles(n);
  }

  lemma MixFeeds(n: bv32, b: Byte)
    ensures Low(Mix(n, b)) == Xor(Low(n), High(b))
  {
  }

  lemma LowComplement(n: bv32)
    ensures Low(!n) == Not(Low(n))
  {
  }

  lemma InitialLow()
    ensures Low(0xFFFF) == 0xFFFF
  {
  }

  function ShiftBy(x: bv16, k: nat): bv16
    decreases k
  {
    if k == 0 then x else ShiftBy(Shift(x), k - 1)
  }

  lemma ShiftBy4More(x: bv16, k: nat)
    ensures ShiftBy(x, k + 4) == ShiftBy(Shift4(x), k)
  {
    hide Shift;
    assert ShiftBy(x, k + 4) == ShiftBy(Shift(x), k + 3) == ShiftBy(Shift(Shift(x)), k + 2);
    assert ShiftBy(Shift(Shift(x)), k + 2) == ShiftBy(Shift(Shift(Shift(x))), k + 1);
  }

  lemma ShiftBy8(x: bv16)
    ensures ShiftBy(x, 8) == Shift8(x)
  {
    hide Shift;
    ShiftBy4More(x, 4);
    ShiftBy4More(Shift4(x), 0);
  }

  /** The eight rounds of the inner loop. */
  method ShiftEight(m: bv32) returns (n: bv32)
    ensures Low(n) == Shift8(Low(m))
  {
    hide Shift, WideShift, Low, Shift8;
    n := m;
    ShiftBy8(Low(m));
    for c := 0 to 8
      invariant ShiftBy(Low(m), 8) == ShiftBy(Low(n), 8 - c)
    {
      WideShiftIsShift(n);
      n := WideShift(n);
    }
  }

  lemma RegisterStep(x: bv16, data: seq<Byte>, i: nat)
    requires i < |data|
    ensures Register(x, data[i..]) == Register(Feed(x, data[i]), data[i + 1..])
  {
    hide Feed;
    assert data[i..][0] == data[i] && data[i..][1..] == data[i + 1..];
  }

  lemma NothingLeft(x: bv16, data: seq<Byte>)
    ensures data == [] ==> Register(x, data) == x
  {
  }

  /** `flashrom_crc` computes the reference CRC of the first 62 bytes. */
  method FlashromCrc(buf: seq<Byte>) returns (crc: bv16)
    requires |buf| >= OFFSET_CRC
    ensures crc == Crc(buf[..OFFSET_CRC])
  {
    hide Shift8, Low, Register, Xor, High, Mix, Not;
    ghost var data := buf[..OFFSET_CRC];
    var n: bv32 := 0xFFFF;
    InitialLow();
    assert data[0..] == data;
    for i := 0 to OFFSET_CRC
      invariant Register(0xFFFF, data) == Register(Low(n), data[i..])
    {
      RegisterStep(Low(n), data, i);
      MixFeeds(n, buf[i]);
      n := ShiftEight(Mix(n, buf[i]));
    }
    NothingLeft(Low(n), data[OFFSET_CRC..]);
    LowComplement(n);
    crc := Low(!n);
  }

  // ---------------------------------------------------------------- shifting loses nothing

  /** The polynomial's lowest bit tells whether the top bit was shifted out, so a shift can be undone. */
  function Unshift(y: bv16): bv16 {
    if y & 1 != 0 then ((y ^ POLYNOMIAL) >> 1) | 0x8000 else y >> 1
  }

  lemma LowBitTells(x: bv16)
    ensures ((x << 1) ^ POLYNOMIAL) & 1 != 0 && (x << 1) & 1 == 0
  {
  }

  lemma UndoWithTop(x: bv16)
    requires x & 0x8000 != 0
    ensures ((((x << 1) ^ POLYNOMIAL) ^ POLYNOMIAL) >> 1) | 0x8000 == x
  {
  }

  lemma UndoWithoutTop(x: bv16)
    requires x & 0x8000 == 0
    ensures (x << 1) >> 1 == x
  {
  }

  lemma ShiftUndone(x: bv16)
    ensures Unshift(Shift(x)) == x
  {
    LowBitTells(x);
    if x & 0x8000 != 0 {
      UndoWithTop(x);
    } else {
      UndoWithoutTop(x);
    }
  }

  lemma Shift8Undone(x: bv16)
    ensures Unshift(Unshift(Unshift(Unshift(Unshift(Unshift(Unshift(Unshift(Shift8(x))))))))) == x
  {
    hide Shift, Unshift;
    var y := Shift4(x);
    ShiftUndone(Shift(Shift(Shift(y))));
    ShiftUndone(Shift(Shift(y)));
    ShiftUndone(Shift(y));
    ShiftUndone(y);
    ShiftUndone(Shift(Shift(Shift(x))));
    ShiftUndone(Shift(Shift(x)));
    ShiftUndone(Shift(x));
    ShiftUndone(x);
  }

  lemma Shift8IsInjective(x: bv16, y: bv16)
    requires Shift8(x) == Shift8(y)
    ensures x == y
  {
    hide Shift8, Unshift;
    Shift8Undone(x);
    Shift8Undone(y);
  }

  // ---------------------------------------------------------------- shifting is linear

  lemma XorRegroups(x: bv16, d: bv16, p: bv16)
    ensures Xor(Xor(x, d), p) == Xor(Xor(x, p), d)
  {
  }

  lemma UpDistributes(x: bv16, d: bv16)
    ensures Up(Xor(x, d)) == Xor(Up(x), Up(d))
  {
  }

  lemma TopUntouched(x: bv16, d: bv16)
    requires !Top(d)
    ensures Top(Xor(x, d)) == Top(x)
  {
  }

  /** A difference that stays clear of the top bit just moves up. */
  lemma DifferenceMovesUp(x: bv16, d: bv16)
    requires !Top(d)
    ensures Shift(Xor(x, d)) == Xor(Shift(x), Up(d))
  {
    hide Xor, Up, Top;
    TopUntouched(x, d);
    UpDistributes(x, d);
    XorRegroups(Up(x), Up(d), POLYNOMIAL);
  }

  function Up4(d: bv16): bv16 {
    Up(Up(Up(Up(d))))
  }

  predicate Room4(d: bv16) {
    !Top(d) && !Top(Up(d)) && !Top(Up(Up(d))) && !Top(Up(Up(Up(d))))
  }

  lemma NibbleMovesUp(x: bv16, d: bv16)
    requires Room4(d)
    ensures Shift4(Xor(x, d)) == Xor(Shift4(x), Up4(d))
  {
    hide Shift, Xor, Up, Top;
    DifferenceMovesUp(x, d);
    DifferenceMovesUp(Shift(x), Up(d));
    DifferenceMovesUp(Shift(Shift(x)), Up(Up(d)));
    DifferenceMovesUp(Shift(Shift(Shift(x))), Up(Up(Up(d))));
  }

  lemma ByteRoom(b: Byte)
    ensures Room4(Wide(b)) && Room4(Up4(Wide(b))) && Up4(Up4(Wide(b))) == High(b)
  {
  }

  /** A byte's worth of shifts only moves the low byte up. */
  lemma LowByteMovesUp(x: bv16, b: Byte)
    ensures Shift8(Xor(x, Wide(b))) == Xor(Shift8(x), High(b))
  {
    hide Shift4, Xor, Up4, Room4, Wide, High;
    ByteRoom(b);
    NibbleMovesUp(x, Wide(b));
    NibbleMovesUp(Shift4(x), Up4(Wide(b)));
  }

  /** The state that feeding b and then c puts through sixteen shifts. */
  function Pair(x: bv16, b: Byte, c: Byte): bv16 {
    Xor(Xor(x, High(b)), Wide(c))
  }

  lemma FeedTwo(x: bv16, b: Byte, c: Byte)
    ensures Feed(Feed(x, b), c) == Shift8(Shift8(Pair(x, b, c)))
  {
    hide Shift8, Xor, High, Wide;
    LowByteMovesUp(Xor(x, High(b)), c);
  }

  lemma Cancels(x: bv16, h: bv16, w: bv16)
    ensures Xor(Xor(Xor(x, h), w), x) == Xor(h, w)
  {
    hide Xor;
    XorRegroups(Xor(x, h), w, x);
    XorRegroups(x, h, x);
    SelfCancels(x, h);
  }

  lemma SelfCancels(x: bv16, h: bv16)
    ensures Xor(Xor(x, x), h) == h
  {
  }

  function First(p: bv16): Byte {
    (p >> 8) as Byte
  }

  function Second(p: bv16): Byte {
    (p & 0xFF) as Byte
  }

  lemma BytesOfPair(b: Byte, c: Byte)
    ensures First(Xor(High(b), Wide(c))) == b && Second(Xor(High(b), Wide(c))) == c
  {
  }

  lemma PairsDiffer(x: bv16, b: Byte, c: Byte, b2: Byte, c2: Byte)
    requires Pair(x, b, c) == Pair(x, b2, c2)
    ensures b == b2 && c == c2
  {
    hide Xor, High, Wide, First, Second;
    Cancels(x, High(b), Wide(c));
    Cancels(x, High(b2), Wide(c2));
    BytesOfPair(b, c);
    BytesOfPair(b2, c2);
  }

  /** Two bytes in a row leave the register in a different state than any other two. */
  lemma TwoBytesAreTold(x: bv16, b: Byte, c: Byte, b2: Byte, c2: Byte)
    requires Feed(Feed(x, b), c) == Feed(Feed(x, b2), c2)
    ensures b == b2 && c == c2
  {
    hide Shift8, Feed, Pair;
    FeedTwo(x, b, c);
    FeedTwo(x, b2, c2);
    Shift8IsInjective(Shift8(Pair(x, b, c)), Shift8(Pair(x, b2, c2)));
    Shift8IsInjective(Pair(x, b, c), Pair(x, b2, c2));
    PairsDiffer(x, b, c, b2, c2);
  }

  // ---------------------------------------------------------------- what the checksum detects

  lemma XorIsInjective(x: bv16, y: bv16, d: bv16)
    requires Xor(x, d) == Xor(y, d)
    ensures x == y
  {
  }

  lemma NotIsInjective(x: bv16, y: bv16)
    requires Not(x) == Not(y)
    ensures x == y
  {
  }

  lemma FeedKeepsDifference(x: bv16, y: bv16, b: Byte)
    requires Feed(x, b) == Feed(y, b)
    ensures x == y
  {
    hide Shift8, Xor, High;
    Shift8IsInjective(Xor(x, High(b)), Xor(y, High(b)));
    XorIsInjective(x, y, High(b));
  }

  lemma {:induction false} RegisterKeepsDifference(x: bv16, y: bv16, data: seq<Byte>)
    requires Register(x, data) == Register(y, data)
    ensures x == y
    decreases |data|
  {
    hide Feed;
    if data != [] {
      RegisterKeepsDifference(Feed(x, data[0]), Feed(y, data[0]), data[1..]);
      FeedKeepsDifference(x, y, data[0]);
    }
  }

  lemma {:induction false} RegisterInParts(x: bv16, a: seq<Byte>, b: seq<Byte>)
    ensures Register(x, a + b) == Register(Register(x, a), b)
    decreases |a|
  {
    hide Feed;
    if a == [] {
      assert a + b == b;
    } else {
      assert (a + b)[1..] == a[1..] + b && (a + b)[0] == a[0];
      RegisterInParts(Feed(x, a[0]), a[1..], b);
    }
  }

  /** The register over a message cut around positions i and i + 1. */
  lemma Around(data: seq<Byte>, i: nat)
    requires i + 2 <= |data|
    ensures Register(0xFFFF, data)
            == Register(Feed(Feed(Register(0xFFFF, data[..i]), data[i]), data[i + 1]), data[i + 2..])
  {
    hide Feed, Register;
    assert data == data[..i] + data[i..];
    RegisterInParts(0xFFFF, data[..i], data[i..]);
    var x := Register(0xFFFF, data[..i]);
    RegisterStep(x, data, i);
    RegisterStep(Feed(x, data[i]), data, i + 1);
  }

  lemma SameAround(a: seq<Byte>, b: seq<Byte>, i: nat)
    requires |a| == |b| && i + 2 <= |a| && a[..i] == b[..i] && a[i + 2..] == b[i + 2..] && a[i] == b[i]
             && a[i + 1] == b[i + 1]
    ensures a == b
  {
    assert a == a[..i] + [a[i], a[i + 1]] + a[i + 2..];
    assert b == b[..i] + [b[i], b[i + 1]] + b[i + 2..];
  }

  /** Any change confined to one byte, or to two neighbouring bytes, changes the checksum. */
  lemma SmallChangesAreDetected(a: seq<Byte>, b: seq<Byte>, i: nat)
    requires |a| == |b| && i + 2 <= |a| && a[..i] == b[..i] && a[i + 2..] == b[i + 2..]
    ensures Crc(a) == Crc(b) <==> a == b
  {
    hide Feed, Register, Not;
    if Crc(a) == Crc(b) {
      Around(a, i);
      Around(b, i);
      NotIsInjective(Register(0xFFFF, a), Register(0xFFFF, b));
      var x := Register(0xFFFF, a[..i]);
      RegisterKeepsDifference(Feed(Feed(x, a[i]), a[i + 1]), Feed(Feed(x, b[i]), b[i + 1]), a[i + 2..]);
      TwoBytesAreTold(x, a[i], a[i + 1], b[i], b[i + 1]);
      SameAround(a, b, i);
    }
  }
}
