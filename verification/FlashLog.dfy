/**
 The syscfg log in the Dreamcast's flash partition 2: `update_flashrom_syscfg` in
 `client/dreamcast/target.c`. Slot i is stored in physical block i + 1; the last block is a
 bitmap of the unused slots; a write can only clear bits.
 */
module FlashLog {
  import opened FlashCrc

  const BLOCK_ID_SYSCFG: bv16 := 5
  const BITMAP_MAX := 64

  type Flash = seq<Byte>

  // ---------------------------------------------------------------- layout

  function NumBlocks(size: nat): nat {
    size / BLOCK_SIZE
  }

  /** One bit per block, rounded up to whole 64-byte blocks. */
  function BitmapBytes(size: nat): nat {
    (NumBlocks(size) + 511) / 512 * 512 / 8
  }

  predicate HasLayout(f: Flash) {
    BLOCK_SIZE * 2 <= |f| && BitmapBytes(|f|) <= BITMAP_MAX
  }

  lemma LayoutFits(f: Flash)
    requires HasLayout(f)
    ensures BitmapBytes(|f|) == 64 && 2 <= NumBlocks(|f|) <= 512 && NumBlocks(|f|) * 64 <= |f|
  {
  }

  function BitmapAt(f: Flash): (at: nat)
    requires HasLayout(f)
    ensures at + 64 == |f|
  {
    LayoutFits(f);
    |f| - BitmapBytes(|f|)
  }

  function Mask(k: nat): Byte {
    match k
    case 0 => 0x80 case 1 => 0x40 case 2 => 0x20 case 3 => 0x10
    case 4 => 0x08 case 5 => 0x04 case 6 => 0x02 case _ => 0x01
  }

  function Masked(x: Byte, y: Byte): Byte {
    x & y
  }

  function Without(x: Byte, m: Byte): Byte {
    x & !m
  }

  predicate Unused(f: Flash, i: nat)
    requires HasLayout(f) && i < NumBlocks(|f|)
  {
    LayoutFits(f);
    Masked(f[BitmapAt(f) + i / 8], Mask(i % 8)) != 0
  }

  predicate InRange(f: Flash, i: nat) {
    (i + 2) * BLOCK_SIZE <= |f|
  }

  function Block(f: Flash, i: nat): (b: seq<Byte>)
    requires InRange(f, i)
    ensures |b| == BLOCK_SIZE
  {
    f[(i + 1) * BLOCK_SIZE..(i + 2) * BLOCK_SIZE]
  }

  function Le16(lo: Byte, hi: Byte): bv16 {
    (lo as bv16) | ((hi as bv16) << 8)
  }

  predicate IsSyscfg(b: seq<Byte>)
    requires |b| == BLOCK_SIZE
  {
    Le16(b[0], b[1]) == BLOCK_ID_SYSCFG && Crc(b[..OFFSET_CRC]) == Le16(b[62], b[63])
  }

  // ---------------------------------------------------------------- scanning

  /** Slot i holds a valid syscfg block that can be read. */
  predicate Found(f: Flash, bad: set<nat>, i: nat)
    requires HasLayout(f) && i < NumBlocks(|f|)
  {
    !Unused(f, i) && i !in bad && InRange(f, i) && IsSyscfg(Block(f, i))
  }

  /** The newest valid block at or below slot i, 0 for none. */
  function Newest(f: Flash, bad: set<nat>, i: nat): (s: nat)
    requires HasLayout(f) && i < NumBlocks(|f|)
    ensures s <= i && (s > 0 ==> Found(f, bad, s))
    ensures forall j | s < j <= i :: !Found(f, bad, j)
  {
    if i == 0 then 0 else if Found(f, bad, i) then i else Newest(f, bad, i - 1)
  }

  function Current(f: Flash, bad: set<nat>): nat
    requires HasLayout(f)
  {
    LayoutFits(f);
    Newest(f, bad, NumBlocks(|f|) - 1)
  }

  /** The first unused slot from i on, or the number of blocks. */
  function FirstUnused(f: Flash, i: nat): (k: nat)
    requires HasLayout(f) && i <= NumBlocks(|f|)
    ensures i <= k <= NumBlocks(|f|) && (k < NumBlocks(|f|) ==> Unused(f, k))
    ensures forall j | i <= j < k :: !Unused(f, j)
    decreases NumBlocks(|f|) - i
  {
    if i == NumBlocks(|f|) || Unused(f, i) then i else FirstUnused(f, i + 1)
  }

  // ---------------------------------------------------------------- the new block

  function DateByte(t: bv32, k: nat): Byte {
    match k
    case 0 => (t & 0xFF) as Byte
    case 1 => ((t >> 8) & 0xFF) as Byte
    case 2 => ((t >> 16) & 0xFF) as Byte
    case _ => ((t >> 24) & 0xFF) as Byte
  }

  function LowByte(c: bv16): Byte {
    (c & 0xFF) as Byte
  }

  function HighByte(c: bv16): Byte {
    ((c >> 8) & 0xFF) as Byte
  }

  lemma CrcBytes(c: bv16)
    ensures Le16(LowByte(c), HighByte(c)) == c
  {
  }

  function Dated(b: seq<Byte>, t: bv32): (r: seq<Byte>)
    requires |b| == BLOCK_SIZE
    ensures |r| == BLOCK_SIZE
  {
    b[2 := DateByte(t, 0)][3 := DateByte(t, 1)][4 := DateByte(t, 2)][5 := DateByte(t, 3)]
  }

  function NewBlock(b: seq<Byte>, t: bv32): (r: seq<Byte>)
    requires |b| == BLOCK_SIZE
    ensures |r| == BLOCK_SIZE
  {
    var d := Dated(b, t);
    var crc := Crc(d[..OFFSET_CRC]);
    d[62 := LowByte(crc)][63 := HighByte(crc)]
  }

  /** A 32-bit word from its bytes, least significant first. */
  function Joined(a: Byte, b: Byte, c: Byte, d: Byte): bv32 {
    (a as bv32) | ((b as bv32) << 8) | ((c as bv32) << 16) | ((d as bv32) << 24)
  }

  lemma DateBytesJoin(t: bv32)
    ensures Joined(DateByte(t, 0), DateByte(t, 1), DateByte(t, 2), DateByte(t, 3)) == t
  {
  }

  /** The rewritten block is valid, carries the date, and keeps every other data byte. */
  lemma NewBlockIsValid(b: seq<Byte>, t: bv32)
    requires |b| == BLOCK_SIZE && IsSyscfg(b)
    ensures var r := NewBlock(b, t);
            && IsSyscfg(r) && r[..2] == b[..2] && r[6..62] == b[6..62]
            && Joined(r[2], r[3], r[4], r[5]) == t
  {
    hide Crc, Le16, LowByte, HighByte, DateByte, Joined;
    DateBytesJoin(t);
    var d := Dated(b, t);
    var r := NewBlock(b, t);
    assert r[..OFFSET_CRC] == d[..OFFSET_CRC];
    CrcBytes(Crc(d[..OFFSET_CRC]));
  }

  // ---------------------------------------------------------------- writing

  /** Writing can only clear bits. */
  function Written(f: Flash, at: nat, data: seq<Byte>): (r: Flash)
    requires at + |data| <= |f|
    ensures |r| == |f|
    ensures forall k | 0 <= k < |f| :: r[k] == if at <= k < at + |data| then Masked(f[k], data[k - at]) else f[k]
  {
    seq(|f|, k requires 0 <= k < |f| => if at <= k < at + |data| then Masked(f[k], data[k - at]) else f[k])
  }

  /** Mark slot k as used. */
  function Claimed(f: Flash, k: nat): (r: Flash)
    requires HasLayout(f) && k < NumBlocks(|f|)
    ensures |r| == |f|
  {
    LayoutFits(f);
    var at := BitmapAt(f) + k / 8;
    Written(f, at, [Without(f[at], Mask(k % 8))])
  }

  /** What can go wrong: the BIOS call for the partition, reading the bitmap, reading some slots,
      either write. */
  datatype Bios = Bios(info: bool, bitmap: bool, bad: set<nat>, writeBitmap: bool, writeBlock: bool)

  /** The partition after an update, or after one that stopped half way when `stopped`. */
  function Updated(f: Flash, t: bv32, bios: Bios, stopped: bool): (r: Flash)
    ensures |r| == |f|
  {
    if !bios.info || !HasLayout(f) || !bios.bitmap then f
    else
      LayoutFits(f);
      var s := Current(f, bios.bad);
      var k := FirstUnused(f, 1);
      if s == 0 || k == NumBlocks(|f|) || !bios.writeBitmap then f
      else
        var c := Claimed(f, k);
        if stopped || !bios.writeBlock || !InRange(c, k) then c
        else Written(c, (k + 1) * BLOCK_SIZE, NewBlock(Block(f, s), t))
  }

  // ---------------------------------------------------------------- bits

  lemma MasksDiffer(j: nat, k: nat)
    requires j < 8 && k < 8 && j != k
    ensures Masked(Mask(j), Mask(k)) == 0
  {
  }

  lemma ClearedBit(x: Byte, m: Byte)
    ensures Masked(Masked(x, Without(x, m)), m) == 0
  {
  }

  lemma OtherBits(x: Byte, m: Byte, o: Byte)
    requires Masked(m, o) == 0
    ensures Masked(Masked(x, Without(x, m)), o) == Masked(x, o)
  {
  }

  lemma Erased(x: Byte)
    ensures Masked(0xFF, x) == x
  {
  }

  lemma MaskIsShift(k: nat)
    requires k < 8
    ensures Mask(k) == 0x80 >> k
  {
    assert k == 0 || k == 1 || k == 2 || k == 3 || k == 4 || k == 5 || k == 6 || k == 7;
  }

  /** The partitions with a bitmap, and the bit that says whether a slot is free: its block lies at the end,
      the first slot's bit is the highest. */
  lemma UnusedMeans(f: Flash, i: nat)
    ensures HasLayout(f) <==> 128 <= |f| < 513 * 64
    ensures HasLayout(f) && i < |f| / 64 ==>
              (Unused(f, i) <==> f[|f| - 64 + i / 8] & (0x80 >> (i % 8)) != 0)
  {
    if HasLayout(f) && i < |f| / 64 {
      LayoutFits(f);
      MaskIsShift(i % 8);
    }
  }

  /** Claiming a slot clears its bit in that byte and touches no other. */
  lemma ClaimedByte(f: Flash, k: nat, j: nat)
    requires HasLayout(f) && k < |f| / 64 && j < |f|
    ensures Claimed(f, k)[j] == if j == |f| - 64 + k / 8 then f[j] & !(0x80 >> (k % 8)) else f[j]
  {
    hide Mask;
    LayoutFits(f);
    MaskIsShift(k % 8);
    ClearedByte(f[BitmapAt(f) + k / 8], Mask(k % 8));
  }

  lemma ClearedByte(x: Byte, m: Byte)
    ensures Masked(x, Without(x, m)) == x & !m
  {
  }

  /** A syscfg block begins with the number 5 and ends with the checksum of what comes before. */
  lemma SyscfgMeans(b: seq<Byte>)
    requires |b| == 64
    ensures IsSyscfg(b) <==> b[0] == 5 && b[1] == 0 && LowByte(Crc(b[..62])) == b[62] && HighByte(Crc(b[..62])) == b[63]
  {
    hide Crc;
    BytesOfLe16(b[0], b[1]);
    BytesOfLe16(b[62], b[63]);
    CrcBytes(Crc(b[..62]));
    BytesOfLe16(5, 0);
  }

  lemma BytesOfLe16(lo: Byte, hi: Byte)
    ensures LowByte(Le16(lo, hi)) == lo && HighByte(Le16(lo, hi)) == hi
  {
  }

  /** Claiming slot k changes the state of slot k and of no other. */
  lemma ClaimedBits(f: Flash, k: nat, i: nat)
    requires HasLayout(f) && k < NumBlocks(|f|) && i < NumBlocks(|f|)
    ensures HasLayout(Claimed(f, k)) && Unused(Claimed(f, k), i) == (Unused(f, i) && i != k)
  {
    hide Mask, Masked, Without;
    LayoutFits(f);
    var at := BitmapAt(f) + k / 8;
    if i / 8 == k / 8 {
      if i == k {
        ClearedBit(f[at], Mask(k % 8));
      } else {
        assert i % 8 != k % 8;
        MasksDiffer(k % 8, i % 8);
        OtherBits(f[at], Mask(k % 8), Mask(i % 8));
      }
    }
  }

  // ---------------------------------------------------------------- the log

  /** Slot k is the first free one; if it has a block of its own, that block is erased. Slots
      above k may be in any state. */
  ghost predicate FirstFree(f: Flash, k: nat) {
    && HasLayout(f) && |f| % BLOCK_SIZE == 0 && 1 <= k < NumBlocks(|f|)
    && Unused(f, k) && (forall i | 1 <= i < k :: !Unused(f, i))
    && (k + 3 <= NumBlocks(|f|) ==> forall j | (k + 1) * BLOCK_SIZE <= j < (k + 2) * BLOCK_SIZE :: f[j] == 0xFF)
  }

  /** And k is short of the bitmap, which is not to be mistaken for a block: its own slot is free, or
      so many are used that the id does not fit. */
  ghost predicate LogOk(f: Flash, k: nat) {
    FirstFree(f, k) && k + 3 <= NumBlocks(|f|) && (Unused(f, NumBlocks(|f|) - 2) || k >= 8)
  }

  lemma FirstFreeMeans(f: Flash, k: nat)
    requires FirstFree(f, k)
    ensures HasLayout(f) && NumBlocks(|f|) * BLOCK_SIZE == |f| && FirstUnused(f, 1) == k
    ensures BitmapAt(f) == (NumBlocks(|f|) - 1) * BLOCK_SIZE && 2 <= NumBlocks(|f|)
  {
    hide Unused;
    LayoutFits(f);
    assert Unused(f, k);
  }

  lemma {:induction false} NewestAgrees(f: Flash, g: Flash, bad: set<nat>, i: nat)
    requires HasLayout(f) && HasLayout(g) && |f| == |g| && i < NumBlocks(|f|)
    requires forall j | 1 <= j <= i :: Found(f, bad, j) == Found(g, bad, j)
    ensures Newest(f, bad, i) == Newest(g, bad, i)
  {
    hide Found;
    if i > 0 {
      NewestAgrees(f, g, bad, i - 1);
    }
  }

  lemma ErasedIsNotSyscfg(b: seq<Byte>)
    requires |b| == BLOCK_SIZE && b[0] == 0xFF
    ensures !IsSyscfg(b)
  {
    hide Crc;
    LowByteCounts(b[0], b[1]);
  }

  lemma LowByteCounts(lo: Byte, hi: Byte)
    ensures Le16(lo, hi) == BLOCK_ID_SYSCFG ==> lo == 5
  {
  }

  lemma SameBlock(f: Flash, g: Flash, i: nat)
    requires |f| == |g| && InRange(f, i) && forall j | (i + 1) * BLOCK_SIZE <= j < (i + 2) * BLOCK_SIZE :: f[j] == g[j]
    ensures Block(f, i) == Block(g, i)
  {
  }

  /** Claiming leaves the contents of every slot below the bitmap alone. */
  lemma ClaimedKeepsBlocks(f: Flash, k: nat, i: nat)
    requires FirstFree(f, k) && i + 3 <= NumBlocks(|f|)
    ensures InRange(f, i) && InRange(Claimed(f, k), i) && Block(Claimed(f, k), i) == Block(f, i)
  {
    hide Mask, Masked, Without, Unused;
    FirstFreeMeans(f, k);
    SameBlock(f, Claimed(f, k), i);
  }

  /** Claiming slot k changes what the scan makes of no slot but the bitmap's own. */
  lemma ClaimedKeepsFound(f: Flash, k: nat, bad: set<nat>, i: nat)
    requires FirstFree(f, k) && 1 <= i < NumBlocks(|f|)
    requires i + 2 != NumBlocks(|f|) || Unused(f, i) || (8 <= k && 9 <= NumBlocks(|f|))
    ensures HasLayout(Claimed(f, k)) && Found(f, bad, i) == (i != k && Found(Claimed(f, k), bad, i))
  {
    hide Claimed, Unused, Mask, Masked, Without, IsSyscfg;
    ClaimedBits(f, k, i);
    FirstFreeMeans(f, k);
    if i + 3 <= NumBlocks(|f|) {
      ClaimedKeepsBlocks(f, k, i);
    } else if i + 2 == NumBlocks(|f|) && !Unused(f, i) {
      ClaimedBits(f, k, 5);
      ClaimedBits(f, k, 7);
      BitmapIsNotSyscfg(f, i);
      BitmapIsNotSyscfg(Claimed(f, k), i);
    }
  }

  lemma ErasedSlotIsNotFound(f: Flash, k: nat, bad: set<nat>)
    requires FirstFree(f, k) && k + 3 <= NumBlocks(|f|)
    ensures HasLayout(Claimed(f, k)) && !Found(Claimed(f, k), bad, k)
  {
    hide Claimed, Unused, IsSyscfg;
    FirstFreeMeans(f, k);
    ClaimedBits(f, k, k);
    ClaimedKeepsBlocks(f, k, k);
    assert Block(f, k)[0] == f[(k + 1) * BLOCK_SIZE];
    ErasedIsNotSyscfg(Block(f, k));
  }

  /** A stop between the two writes: no data has changed, and the old block is still the one the scan
      finds - exactly, that is, unless the claim makes the bitmap, read as the slot it lies in, begin or
      cease to look like a syscfg block. */
  lemma StopIsHarmless(f: Flash, k: nat, bad: set<nat>)
    requires FirstFree(f, k) && k + 3 <= NumBlocks(|f|)
    ensures HasLayout(Claimed(f, k))
    ensures var c, top := Claimed(f, k), NumBlocks(|f|) - 2;
            && (Current(c, bad) == Current(f, bad) <==> Found(c, bad, top) == Found(f, bad, top))
            && (LogOk(f, k) ==> Current(c, bad) == Current(f, bad))
  {
    hide Claimed, Unused, IsSyscfg;
    FirstFreeMeans(f, k);
    ErasedSlotIsNotFound(f, k, bad);
    var c, n := Claimed(f, k), NumBlocks(|f|);
    forall j | 1 <= j < n && j + 2 != n
      ensures Found(f, bad, j) == Found(c, bad, j)
    {
      ClaimedKeepsFound(f, k, bad, j);
    }
    if LogOk(f, k) {
      ClaimedKeepsFound(f, k, bad, n - 2);
    }
    NewestAtTheTop(f, bad);
    NewestAtTheTop(c, bad);
    if Found(c, bad, n - 2) == Found(f, bad, n - 2) {
      NewestAgrees(f, c, bad, n - 1);
    }
  }

  /** Slot NumBlocks - 1 lies past the end and is never found. */
  lemma NewestAtTheTop(f: Flash, bad: set<nat>)
    requires HasLayout(f) && NumBlocks(|f|) > 2
    ensures Current(f, bad) <= NumBlocks(|f|) - 2
    ensures Current(f, bad) == NumBlocks(|f|) - 2 <==> Found(f, bad, NumBlocks(|f|) - 2)
  {
    hide Unused, IsSyscfg;
    assert !InRange(f, NumBlocks(|f|) - 1);
  }

  lemma ErasedTakesTheBlock(c: Flash, k: nat, data: seq<Byte>)
    requires |data| == BLOCK_SIZE && InRange(c, k) && forall j | (k + 1) * BLOCK_SIZE <= j < (k + 2) * BLOCK_SIZE ::
             c[j] == 0xFF
    ensures Block(Written(c, (k + 1) * BLOCK_SIZE, data), k) == data
  {
    hide Masked;
    var w := Written(c, (k + 1) * BLOCK_SIZE, data);
    forall j | 0 <= j < BLOCK_SIZE
      ensures Block(w, k)[j] == data[j]
    {
      Erased(data[j]);
      assert c[(k + 1) * BLOCK_SIZE + j] == 0xFF;
    }
  }

  lemma WrittenElsewhere(c: Flash, k: nat, data: seq<Byte>, i: nat)
    requires |data| == BLOCK_SIZE && InRange(c, k) && InRange(c, i) && i != k
    ensures Block(Written(c, (k + 1) * BLOCK_SIZE, data), i) == Block(c, i)
  {
    hide Masked;
    SameBlock(c, Written(c, (k + 1) * BLOCK_SIZE, data), i);
  }

  lemma WrittenKeepsBitmap(c: Flash, k: nat, data: seq<Byte>, i: nat)
    requires HasLayout(c) && |data| == BLOCK_SIZE && InRange(c, k) && (k + 2) * BLOCK_SIZE <= BitmapAt(c)
             && i < NumBlocks(|c|)
    ensures var w := Written(c, (k + 1) * BLOCK_SIZE, data); HasLayout(w) && Unused(w, i) == Unused(c, i)
  {
    hide Masked, Mask;
    LayoutFits(c);
  }

  lemma ClaimedKeepsErased(f: Flash, k: nat)
    requires FirstFree(f, k) && k + 3 <= NumBlocks(|f|)
    ensures forall j | (k + 1) * BLOCK_SIZE <= j < (k + 2) * BLOCK_SIZE :: Claimed(f, k)[j] == 0xFF
  {
    hide Mask, Masked, Without, Unused;
    FirstFreeMeans(f, k);
  }

  /** What the BIOS does and the update needs: every call works and slot k can be read back. */
  predicate AllWorks(bios: Bios, k: nat) {
    bios.info && bios.bitmap && bios.writeBitmap && bios.writeBlock && k !in bios.bad
  }

  /** The partition once the block is written behind the claim. */
  lemma UpdateWrites(f: Flash, k: nat, t: bv32, bios: Bios)
    requires FirstFree(f, k) && k + 2 <= NumBlocks(|f|) && AllWorks(bios, k) && Current(f, bios.bad) > 0
    ensures InRange(f, Current(f, bios.bad)) && InRange(Claimed(f, k), k)
    ensures var data := NewBlock(Block(f, Current(f, bios.bad)), t);
            Updated(f, t, bios, false) == Written(Claimed(f, k), (k + 1) * BLOCK_SIZE, data)
            && HasLayout(Updated(f, t, bios, false))
  {
    hide Claimed, Unused, Masked, IsSyscfg, NewBlock;
    FirstFreeMeans(f, k);
    assert Found(f, bios.bad, Current(f, bios.bad));
  }

  /** The written slot holds the new block and is found; every other one is as after the claim. */
  lemma WrittenSlot(f: Flash, k: nat, t: bv32, bios: Bios)
    requires FirstFree(f, k) && k + 3 <= NumBlocks(|f|) && AllWorks(bios, k) && Current(f, bios.bad) > 0
    ensures InRange(f, Current(f, bios.bad)) && HasLayout(Updated(f, t, bios, false))
    ensures var r := Updated(f, t, bios, false); var data := NewBlock(Block(f, Current(f, bios.bad)), t);
            Block(r, k) == data && IsSyscfg(data) && Found(r, bios.bad, k)
  {
    hide Claimed, Unused, IsSyscfg, NewBlock, Updated;
    UpdateWrites(f, k, t, bios);
    FirstFreeMeans(f, k);
    var s := Current(f, bios.bad);
    assert Found(f, bios.bad, s);
    NewBlockIsValid(Block(f, s), t);
    ClaimedKeepsErased(f, k);
    ErasedTakesTheBlock(Claimed(f, k), k, NewBlock(Block(f, s), t));
    WrittenKeepsBitmap(Claimed(f, k), k, NewBlock(Block(f, s), t), k);
    ClaimedBits(f, k, k);
  }

  lemma OtherSlot(f: Flash, k: nat, t: bv32, bios: Bios, i: nat)
    requires FirstFree(f, k) && k + 3 <= NumBlocks(|f|) && AllWorks(bios, k) && Current(f, bios.bad) > 0
    requires 1 <= i < NumBlocks(|f|) && i != k
    ensures HasLayout(Updated(f, t, bios, false)) && HasLayout(Claimed(f, k))
    ensures var r, c := Updated(f, t, bios, false), Claimed(f, k);
            && Unused(r, i) == Unused(f, i) && Found(r, bios.bad, i) == Found(c, bios.bad, i)
            && (i + 3 <= NumBlocks(|f|) ==> InRange(r, i) && Block(r, i) == Block(f, i))
  {
    hide Claimed, Unused, IsSyscfg, NewBlock, Updated;
    UpdateWrites(f, k, t, bios);
    FirstFreeMeans(f, k);
    var data := NewBlock(Block(f, Current(f, bios.bad)), t);
    WrittenKeepsBitmap(Claimed(f, k), k, data, i);
    ClaimedBits(f, k, i);
    if i + 2 <= NumBlocks(|f|) {
      WrittenElsewhere(Claimed(f, k), k, data, i);
    }
    if i + 3 <= NumBlocks(|f|) {
      ClaimedKeepsBlocks(f, k, i);
    }
  }

  /** A completed update: slot k, and no other, becomes used; it holds the old block with the new date,
      valid; every other slot is untouched; and the scan finds it if k is above the old block. */
  lemma UpdateAppends(f: Flash, k: nat, t: bv32, bios: Bios)
    requires LogOk(f, k) && AllWorks(bios, k) && Current(f, bios.bad) > 0
    ensures HasLayout(Updated(f, t, bios, false)) && InRange(f, Current(f, bios.bad))
    ensures var r := Updated(f, t, bios, false); var was := Current(f, bios.bad);
            && Current(r, bios.bad) == (if was < k then k else was)
            && Block(r, k) == NewBlock(Block(f, was), t) && IsSyscfg(Block(r, k))
            && (forall i | 1 <= i < NumBlocks(|r|) :: Unused(r, i) == (Unused(f, i) && i != k))
            && (forall i | 1 <= i && i + 3 <= NumBlocks(|r|) && i != k :: InRange(r, i) && Block(r, i) == Block(f, i))
  {
    hide Claimed, Unused, IsSyscfg, NewBlock, Updated, Block;
    FirstFreeMeans(f, k);
    WrittenSlot(f, k, t, bios);
    var r := Updated(f, t, bios, false);
    forall i | 1 <= i < NumBlocks(|f|) && i != k
      ensures Unused(r, i) == Unused(f, i) && Found(r, bios.bad, i) == Found(f, bios.bad, i)
      ensures i + 3 <= NumBlocks(|f|) ==> InRange(r, i) && Block(r, i) == Block(f, i)
    {
      OtherSlot(f, k, t, bios, i);
      ClaimedKeepsFound(f, k, bios.bad, i);
    }
    NewestUpTo(f, r, bios.bad, NumBlocks(|f|) - 1, k);
  }

  // ---------------------------------------------------------------- the last two slots

  /** The bitmap, with slot k claimed, under a block written over it. */
  function Overlay(f: Flash, k: nat, data: seq<Byte>): (b: seq<Byte>)
    requires HasLayout(f) && k < NumBlocks(|f|) && |data| == BLOCK_SIZE
    ensures |b| == BLOCK_SIZE
  {
    LayoutFits(f);
    seq(BLOCK_SIZE, j requires 0 <= j < BLOCK_SIZE => Masked(Claimed(f, k)[BitmapAt(f) + j], data[j]))
  }

  lemma FiveNeedsTwoBits(x: Byte)
    requires Masked(x, Mask(5)) == 0 && Masked(x, Mask(7)) == 0
    ensures Masked(x, 5) == 0
  {
  }

  /** With slots 5 and 7 in use the bitmap's first byte cannot keep the id of a syscfg block. */
  lemma OverlayIsNotSyscfg(f: Flash, k: nat, data: seq<Byte>)
    requires FirstFree(f, k) && k >= 8 && |data| == BLOCK_SIZE && data[0] == 5
    ensures !IsSyscfg(Overlay(f, k, data))
  {
    hide Mask, Masked, Without, IsSyscfg, Unused;
    FirstFreeMeans(f, k);
    UsedBit(f, 5);
    UsedBit(f, 7);
    assert Claimed(f, k)[BitmapAt(f)] == f[BitmapAt(f)];
    FiveNeedsTwoBits(f[BitmapAt(f)]);
    ZeroIsNotSyscfg(Overlay(f, k, data));
  }

  lemma UsedBit(f: Flash, i: nat)
    requires HasLayout(f) && i < NumBlocks(|f|) && i < 8 && !Unused(f, i)
    ensures Masked(f[BitmapAt(f)], Mask(i)) == 0
  {
  }

  lemma ZeroIsNotSyscfg(b: seq<Byte>)
    requires |b| == BLOCK_SIZE && b[0] == 0
    ensures !IsSyscfg(b)
  {
    hide Crc;
    LowByteCounts(b[0], b[1]);
  }

  lemma IdBytes(b: seq<Byte>)
    requires |b| == BLOCK_SIZE && IsSyscfg(b)
    ensures b[0] == 5
  {
    hide Crc;
    LowByteCounts(b[0], b[1]);
  }

  lemma OverwrittenBits(c: Flash, data: seq<Byte>, i: nat)
    requires HasLayout(c) && |data| == BLOCK_SIZE && i < NumBlocks(|c|)
    ensures var w := Written(c, BitmapAt(c), data); HasLayout(w) && (Unused(w, i) ==> Unused(c, i))
  {
    hide Mask, Masked;
    LayoutFits(c);
    var at := BitmapAt(c) + i / 8;
    OnlyClears(c[at], data[i / 8], Mask(i % 8));
  }

  lemma OnlyClears(x: Byte, d: Byte, m: Byte)
    ensures Masked(x, m) == 0 ==> Masked(Masked(x, d), m) == 0
  {
  }

  /** A block written over the bitmap: the slots below keep what the scan makes of them. */
  lemma OverwrittenKeepsFound(f: Flash, k: nat, data: seq<Byte>, bad: set<nat>, j: nat)
    requires FirstFree(f, k) && k + 2 == NumBlocks(|f|) && |data| == BLOCK_SIZE
    requires 1 <= j < NumBlocks(|f|) && j != k && InRange(Claimed(f, k), k)
    ensures var r := Written(Claimed(f, k), (k + 1) * BLOCK_SIZE, data);
            HasLayout(r) && Found(f, bad, j) == Found(r, bad, j)
  {
    hide Unused, Masked, IsSyscfg, Claimed;
    FirstFreeMeans(f, k);
    ClaimedKeepsFound(f, k, bad, j);
    ClaimedBits(f, k, j);
    OverwrittenBits(Claimed(f, k), data, j);
    if j < k {
      WrittenElsewhere(Claimed(f, k), k, data, j);
    }
  }

  lemma OverlaidSlot(f: Flash, k: nat, data: seq<Byte>, bad: set<nat>)
    requires FirstFree(f, k) && k + 2 == NumBlocks(|f|) && |data| == BLOCK_SIZE && k !in bad
    requires InRange(Claimed(f, k), k)
    ensures var r := Written(Claimed(f, k), (k + 1) * BLOCK_SIZE, data);
            HasLayout(r) && Found(r, bad, k) == IsSyscfg(Overlay(f, k, data))
  {
    hide Unused, Masked, IsSyscfg, Claimed;
    FirstFreeMeans(f, k);
    ClaimedBits(f, k, k);
    OverwrittenBits(Claimed(f, k), data, k);
    OverlayIsTheBlock(f, k, data);
  }

  lemma OverlayIsTheBlock(f: Flash, k: nat, data: seq<Byte>)
    requires FirstFree(f, k) && k + 2 == NumBlocks(|f|) && |data| == BLOCK_SIZE
    ensures InRange(Claimed(f, k), k)
    ensures Block(Written(Claimed(f, k), (k + 1) * BLOCK_SIZE, data), k) == Overlay(f, k, data)
  {
    hide Unused, Masked, Claimed;
    FirstFreeMeans(f, k);
    var at := BitmapAt(f);
    assert (k + 1) * BLOCK_SIZE == at && (k + 2) * BLOCK_SIZE == at + BLOCK_SIZE == |f|;
    var w := Written(Claimed(f, k), at, data);
    forall j | 0 <= j < BLOCK_SIZE
      ensures w[at..][j] == Overlay(f, k, data)[j]
    {
      assert w[at..][j] == w[at + j];
    }
    assert w[at..|f|] == w[at..];
  }

  /** The first free slot is the bitmap's own block: the new block is the one found only if it
      can be read back from under the bitmap; otherwise the old one is. */
  lemma BitmapSlot(f: Flash, k: nat, t: bv32, bios: Bios)
    requires FirstFree(f, k) && k + 2 == NumBlocks(|f|) && AllWorks(bios, k) && Current(f, bios.bad) > 0
    ensures var r := Updated(f, t, bios, false); var data := NewBlock(Block(f, Current(f, bios.bad)), t);
            && HasLayout(r)
            && Current(r, bios.bad) == if IsSyscfg(Overlay(f, k, data)) then k else Current(f, bios.bad)
  {
    hide Unused, IsSyscfg, Claimed, NewBlock, Updated, Overlay, Block;
    FirstFreeMeans(f, k);
    UpdateWrites(f, k, t, bios);
    var n, data := NumBlocks(|f|), NewBlock(Block(f, Current(f, bios.bad)), t);
    var r := Updated(f, t, bios, false);
    forall j | 1 <= j < n && j != k
      ensures Found(f, bios.bad, j) == Found(r, bios.bad, j)
    {
      OverwrittenKeepsFound(f, k, data, bios.bad, j);
    }
    OverlaidSlot(f, k, data, bios.bad);
    NewestUpTo(f, r, bios.bad, n - 1, k);
    NewestAtTheTop(f, bios.bad);
  }

  /** Two partitions that differ at most in whether slot k, not found in the first, is found. */
  lemma {:induction false} NewestUpTo(f: Flash, g: Flash, bad: set<nat>, i: nat, k: nat)
    requires HasLayout(f) && HasLayout(g) && |f| == |g| && i < NumBlocks(|f|) && 1 <= k < NumBlocks(|f|)
             && !Found(f, bad, k)
    requires forall j | 1 <= j < NumBlocks(|f|) && j != k :: Found(f, bad, j) == Found(g, bad, j)
    ensures Newest(g, bad, i)
         == if k <= i && Found(g, bad, k) && Newest(f, bad, i) < k then k else Newest(f, bad, i)
  {
    hide Found;
    if i > 0 {
      NewestUpTo(f, g, bad, i - 1, k);
    }
  }

  /** The bitmap's own block, read as slot NumBlocks - 2, is no syscfg block once slots 5 and 7 are in use. */
  lemma BitmapIsNotSyscfg(f: Flash, i: nat)
    requires HasLayout(f) && |f| % BLOCK_SIZE == 0 && i + 2 == NumBlocks(|f|) >= 9 && !Unused(f, 5) && !Unused(f, 7)
    ensures InRange(f, i) && !IsSyscfg(Block(f, i))
  {
    hide Mask, Masked, IsSyscfg, Unused;
    LayoutFits(f);
    UsedBit(f, 5);
    UsedBit(f, 7);
    assert Block(f, i)[0] == f[BitmapAt(f)];
    NotFive(f[BitmapAt(f)]);
    if IsSyscfg(Block(f, i)) {
      IdBytes(Block(f, i));
      assert false;
    }
  }

  lemma NotFive(x: Byte)
    requires Masked(x, Mask(5)) == 0 && Masked(x, Mask(7)) == 0
    ensures x != 5
  {
  }

  /** The first free slot is the one past the partition, whose write fails: slot k is used up and
      cannot be found; the old block stays the one found. */
  lemma SlotPastTheEnd(f: Flash, k: nat, t: bv32, bios: Bios)
    requires FirstFree(f, k) && k + 1 == NumBlocks(|f|) && AllWorks(bios, k) && Current(f, bios.bad) > 0
    ensures var r := Updated(f, t, bios, false);
            && HasLayout(r) && r == Claimed(f, k) && !Unused(r, k) && Current(r, bios.bad) != k
            && (k >= 8 ==> Current(r, bios.bad) == Current(f, bios.bad))
  {
    hide Unused, Masked, IsSyscfg, Claimed, NewBlock;
    FirstFreeMeans(f, k);
    var c := Claimed(f, k);
    ClaimedBits(f, k, k);
    assert Updated(f, t, bios, false) == c;
    if k >= 8 {
      forall j | 1 <= j < NumBlocks(|f|)
        ensures Found(f, bios.bad, j) == Found(c, bios.bad, j)
      {
        ClaimedKeepsFound(f, k, bios.bad, j);
      }
      NewestAgrees(f, c, bios.bad, NumBlocks(|f|) - 1);
    }
  }

  /** Exactly when a completed update is the one found: its slot lies below the bitmap, or survives
      being written over it, and after the claim nothing valid lies above. As long as the bitmap's own
      slot is not in use the second means: the old block was below. In a partition of ten blocks or more
      the last two slots never hold the update. */
  lemma NewBlockIsFoundExactly(f: Flash, k: nat, t: bv32, bios: Bios)
    requires FirstFree(f, k) && AllWorks(bios, k) && Current(f, bios.bad) > 0
    ensures InRange(f, Current(f, bios.bad)) && HasLayout(Updated(f, t, bios, false)) && HasLayout(Claimed(f, k))
    ensures var n, was := NumBlocks(|f|), Current(f, bios.bad);
            var data, now := NewBlock(Block(f, was), t), Current(Updated(f, t, bios, false), bios.bad);
            && (now == k <==> && (k + 3 <= n || (k + 2 == n && IsSyscfg(Overlay(f, k, data))))
                              && forall j | k < j < n :: !Found(Claimed(f, k), bios.bad, j))
            && (LogOk(f, k) ==> (now == k <==> was < k))
            && (n >= 10 && k + 3 > n ==> now == was != k)
  {
    hide Unused, IsSyscfg, Claimed, Updated, NewBlock, Overlay, Block;
    FirstFreeMeans(f, k);
    var n, s := NumBlocks(|f|), Current(f, bios.bad);
    assert Found(f, bios.bad, s) && s != k;
    if k + 3 <= n {
      FoundBelowTheBitmap(f, k, t, bios);
    } else if k + 2 == n {
      BitmapSlot(f, k, t, bios);
      if n >= 10 {
        OverlaidIsLost(f, k, t, s);
      }
    } else {
      SlotPastTheEnd(f, k, t, bios);
    }
  }

  lemma OverlaidIsLost(f: Flash, k: nat, t: bv32, s: nat)
    requires FirstFree(f, k) && k >= 8 && InRange(f, s) && IsSyscfg(Block(f, s))
    ensures !IsSyscfg(Overlay(f, k, NewBlock(Block(f, s), t)))
  {
    hide IsSyscfg, NewBlock, Overlay;
    NewBlockIsValid(Block(f, s), t);
    IdBytes(NewBlock(Block(f, s), t));
    OverlayIsNotSyscfg(f, k, NewBlock(Block(f, s), t));
  }

  lemma FoundBelowTheBitmap(f: Flash, k: nat, t: bv32, bios: Bios)
    requires FirstFree(f, k) && k + 3 <= NumBlocks(|f|) && AllWorks(bios, k) && Current(f, bios.bad) > 0
    ensures HasLayout(Updated(f, t, bios, false)) && HasLayout(Claimed(f, k))
    ensures var now := Current(Updated(f, t, bios, false), bios.bad);
            && (now == k <==> forall j | k < j < NumBlocks(|f|) :: !Found(Claimed(f, k), bios.bad, j))
            && (LogOk(f, k) ==> (now == k <==> Current(f, bios.bad) < k))
  {
    hide Unused, IsSyscfg, Claimed, Updated, NewBlock, Block;
    FirstFreeMeans(f, k);
    WrittenSlot(f, k, t, bios);
    forall j | k < j < NumBlocks(|f|)
      ensures HasLayout(Claimed(f, k))
              && Found(Updated(f, t, bios, false), bios.bad, j) == Found(Claimed(f, k), bios.bad, j)
    {
      OtherSlot(f, k, t, bios, j);
    }
    NewestIsExactly(Updated(f, t, bios, false), bios.bad, NumBlocks(|f|) - 1, k);
    if LogOk(f, k) {
      UpdateAppends(f, k, t, bios);
      assert !Found(f, bios.bad, k);
    }
  }

  lemma NewestIsExactly(f: Flash, bad: set<nat>, i: nat, k: nat)
    requires HasLayout(f) && i < NumBlocks(|f|) && 1 <= k <= i && Found(f, bad, k)
    ensures Newest(f, bad, i) == k <==> forall j | k < j <= i :: !Found(f, bad, j)
  {
    hide Found;
    assert Found(f, bad, k);
  }

  // ---------------------------------------------------------------- the code

  class Partition {
    const cells: array<Byte>

    constructor (f: Flash)
      ensures fresh(cells) && cells[..] == f
    {
      cells := new Byte[|f|](i requires 0 <= i < |f| => f[i]);
    }

    method Write(at: nat, data: seq<Byte>)
      requires at + |data| <= cells.Length
      modifies cells
      ensures cells[..] == Written(old(cells[..]), at, data)
    {
      hide Masked;
      for i := 0 to |data|
        invariant forall k | 0 <= k < cells.Length ::
                  cells[k] == if at <= k < at + i then Masked(old(cells[k]), data[k - at]) else old(cells[k])
      {
        cells[at + i] := Masked(cells[at + i], data[i]);
      }
    }

    method FindNewest(bad: set<nat>) returns (s: nat, block: seq<Byte>)
      requires HasLayout(cells[..])
      ensures s == Current(cells[..], bad) && (s > 0 ==> block == Block(cells[..], s))
    {
      hide Unused, Crc, Le16;
      ghost var f := cells[..];
      LayoutFits(f);
      s, block := NumBlocks(cells.Length) - 1, [];
      while s > 0
        invariant s < NumBlocks(cells.Length) && Current(f, bad) == Newest(f, bad, s)
      {
        if !Unused(cells[..], s) && s !in bad && InRange(cells[..], s) {
          block := Block(cells[..], s);
          var crc := FlashromCrc(block);
          assert Found(f, bad, s) == IsSyscfg(block);
          if ValidBlock(block, crc) {
            return;
          }
        }
        s := s - 1;
      }
    }

    method FindFree() returns (k: nat)
      requires HasLayout(cells[..])
      ensures k == FirstUnused(cells[..], 1)
    {
      hide Unused;
      LayoutFits(cells[..]);
      k := 1;
      while k < NumBlocks(cells.Length) && !Unused(cells[..], k)
        invariant k <= NumBlocks(cells.Length) && FirstUnused(cells[..], 1) == FirstUnused(cells[..], k)
      {
        k := k + 1;
      }
    }

    method Renew(block: seq<Byte>, t: bv32) returns (r: seq<Byte>)
      requires |block| == BLOCK_SIZE
      ensures r == NewBlock(block, t)
    {
      hide Crc, LowByte, HighByte, DateByte;
      r := Dated(block, t);
      var crc := FlashromCrc(r);
      r := r[62 := LowByte(crc)][63 := HighByte(crc)];
    }

    method UpdateSyscfg(t: bv32, bios: Bios, stopped: bool)
      modifies cells
      ensures cells[..] == Updated(old(cells[..]), t, bios, stopped)
    {
      hide Unused, Mask, Masked, Without, Current, FirstUnused, Written, NewBlock, Block;
      if !bios.info || !HasLayout(cells[..]) || !bios.bitmap {
        return;
      }
      LayoutFits(cells[..]);
      var s, block := FindNewest(bios.bad);
      if s == 0 {
        return;
      }
      var renewed := Renew(block, t);
      var k := FindFree();
      if k == NumBlocks(cells.Length) || !bios.writeBitmap {
        return;
      }
      var at := BitmapAt(cells[..]) + k / 8;
      Write(at, [Without(cells[at], Mask(k % 8))]);
      if stopped || !bios.writeBlock || !InRange(cells[..], k) {
        return;
      }
      Write((k + 1) * BLOCK_SIZE, renewed);
    }
  }

  predicate ValidBlock(b: seq<Byte>, crc: bv16)
    requires |b| == BLOCK_SIZE
  {
    Le16(b[0], b[1]) == BLOCK_ID_SYSCFG && crc == Le16(b[62], b[63])
  }
}
