/**
 The Dreamcast firmware trampoline, `sh4_trampoline`, run from the blob `perform_update`
 uploads: it copies the firmware over the loader and enters it, for exactly the sizes whose
 copy does not reach the copying loop itself.
 */
module Sh4Trampoline {
  import opened Bytes
  import opened Sh4Machine

  const LOAD: u32 := 0x8c01_0000     // where the blob is uploaded
  const LOADER: u32 := 0x8c00_4000   // where the running loader is
  const CODE_AT := 0x1_0000          // their RAM indices
  const FIRMWARE_AT := 0x1_0100
  const LOADER_AT := 0x4000
  const CODE_SIZE := 0x4C
  const MAX_SIZE := 0xC00B

  /** The trampoline as halfwords; the size constant at offset 0x3C is patched by the host. */
  function Tramp16(k: nat, size: u32): u32 {
    match k
    case 0x00 => 0xd00b case 0x01 => 0x400e case 0x02 => 0xd40b case 0x03 => 0xd50c case 0x04 => 0xd60c
    case 0x05 => 0x6044 case 0x06 => 0x2500 case 0x07 => 0x7501 case 0x08 => 0x4610 case 0x09 => 0x8bfa
    case 0x0A => 0xd00a case 0x0B => 0xd10b case 0x0C => 0x2012
    case 0x0D => 0x0009 case 0x0E => 0x0009 case 0x0F => 0x0009 case 0x10 => 0x0009
    case 0x11 => 0x0009 case 0x12 => 0x0009 case 0x13 => 0x0009 case 0x14 => 0x0009
    case 0x15 => 0xd007 case 0x16 => 0x402b case 0x17 => 0x0009
    case 0x18 => 0x00f0 case 0x19 => 0x5000  // sr
    case 0x1A => 0x0100 case 0x1B => 0x8c01  // source
    case 0x1C => 0x4000 case 0x1D => 0x8c00  // destination
    case 0x1E => size % 0x1_0000 case 0x1F => size / 0x1_0000
    case 0x20 => 0x001c case 0x21 => 0xff00  // address of CCR
    case 0x22 => 0x0808 case 0x23 => 0x0000  // its value
    case 0x24 => 0x4000 case 0x25 => 0xac00  // entry
    case _ => 0x0000
  }

  function Listing(k: nat): Instr {
    match k
    case 0x00 => MovLPc(0, 0x0b) case 0x01 => LdcSr(0) case 0x02 => MovLPc(4, 0x0b)
    case 0x03 => MovLPc(5, 0x0c) case 0x04 => MovLPc(6, 0x0c) case 0x05 => MovBInc(4, 0)
    case 0x06 => MovBStore(0, 5) case 0x07 => AddImm(1, 5) case 0x08 => Dt(6) case 0x09 => Bf(0xfa)
    case 0x0A => MovLPc(0, 0x0a) case 0x0B => MovLPc(1, 0x0b) case 0x0C => MovLStore(1, 0)
    case 0x15 => MovLPc(0, 7) case 0x16 => Jmp(0) case _ => Nop
  }

  lemma ListingIsTheCode(k: nat, size: u32)
    requires k < 0x18
    ensures Decode(Tramp16(k, size)) == Listing(k)
  {
    if k < 0x05 {
      PrologueIsTheCode(k, size);
    } else if k < 0x0A {
      LoopIsTheCode(k, size);
    } else {
      TailIsTheCode(k, size);
    }
  }

  lemma PrologueIsTheCode(k: nat, size: u32)
    requires k < 0x05
    ensures Decode(Tramp16(k, size)) == Listing(k)
  {
  }

  lemma LoopIsTheCode(k: nat, size: u32)
    requires 0x05 <= k < 0x0A
    ensures Decode(Tramp16(k, size)) == Listing(k)
  {
  }

  lemma TailIsTheCode(k: nat, size: u32)
    requires 0x0A <= k < 0x18
    ensures Decode(Tramp16(k, size)) == Listing(k)
  {
  }

  /** Halfword k of the trampoline is in RAM. */
  predicate HasHalf(ram: seq<u8>, k: nat, size: u32) {
    |ram| == RAM_SIZE && CODE_AT + 2 * k + 2 <= RAM_SIZE && Half(ram, CODE_AT + 2 * k) == Tramp16(k, size)
  }

  ghost predicate CodeFrom(ram: seq<u8>, first: nat, size: u32) {
    forall k | first <= k < CODE_SIZE / 2 :: HasHalf(ram, k, size)
  }

  /** The uploaded blob has control: any registers, any RAM around it. */
  ghost predicate Ready(m: Sh4, size: u32) {
    && Shape(m) && m.ok && m.pc == LOAD && m.npc == LOAD + 2
    && CodeFrom(m.ram, 0, size) && FIRMWARE_AT + size <= RAM_SIZE
  }

  // ---------------------------------------------------------------- single steps

  lemma Fetch(m: Sh4, k: nat, size: u32)
    requires Shape(m) && m.ok && k < 0x18 && m.pc == LOAD + 2 * k && HasHalf(m.ram, k, size)
    ensures Step(m) == Execute(m, Listing(k))
  {
    hide Execute, Decode, Listing, Tramp16;
    ListingIsTheCode(k, size);
  }

  lemma ConstantAt(ram: seq<u8>, k: nat, size: u32)
    requires HasHalf(ram, k, size) && HasHalf(ram, k + 1, size)
    ensures CODE_AT + 2 * k + 4 <= RAM_SIZE == |ram|
    ensures Word(ram, CODE_AT + 2 * k) == Tramp16(k, size) + 0x1_0000 * Tramp16(k + 1, size)
  {
    hide Tramp16;
  }

  lemma ConstantAddress(k: nat, disp: nat, c: nat)
    requires k < 0x18 && c < 0x100 && 2 * c == 2 * k - 2 * k % 4 + 4 + 4 * disp
    ensures var pc: u32 := LOAD + 2 * k; Index(Wrap32((pc as int) - pc % 4 + 4 + 4 * disp)) == CODE_AT + 2 * c
  {
    var pc := LOAD + 2 * k;
    assert pc % 4 == 2 * k % 4;
    assert (pc as int) - pc % 4 + 4 + 4 * disp == LOAD + 2 * c;
  }

  lemma ExecuteLoad(m: Sh4, n: nat, disp: nat, x: nat)
    requires Shape(m) && n < 16 && x + 4 <= RAM_SIZE && m.npc < 0xFFFF_FFFE
    requires Index(Wrap32((m.pc as int) - m.pc % 4 + 4 + 4 * disp)) == x
    ensures Execute(m, MovLPc(n, disp)) == m.(pc := m.npc, npc := m.npc + 2, r := m.r[n := Word(m.ram, x)])
  {
    hide Index, Word;
  }

  /** mov.l @(disp,PC): load the constant at halfword c into Rn. */
  lemma LoadConstant(m: Sh4, k: nat, n: nat, disp: nat, c: nat, size: u32)
    requires Shape(m) && m.ok && k < 0x18 && m.pc == LOAD + 2 * k && m.npc == m.pc + 2 && n < 16
    requires Listing(k) == MovLPc(n, disp) && 2 * c == 2 * k - 2 * k % 4 + 4 + 4 * disp && c < 0x100
    requires HasHalf(m.ram, k, size) && HasHalf(m.ram, c, size) && HasHalf(m.ram, c + 1, size)
    ensures Step(m) == m.(pc := m.pc + 2, npc := m.npc + 2,
            r := m.r[n := Tramp16(c, size) + 0x1_0000 * Tramp16(c + 1, size)])
  {
    hide Step, Execute, Tramp16, Listing, HasHalf, Index, Word, Wrap32;
    Fetch(m, k, size);
    ConstantAt(m.ram, c, size);
    ConstantAddress(k, disp, c);
    ExecuteLoad(m, n, disp, CODE_AT + 2 * c);
  }

  // ---------------------------------------------------------------- the copy loop

  function Source(m: Sh4, i: nat): u8
    requires Shape(m)
  {
    if FIRMWARE_AT + i < RAM_SIZE then m.ram[FIRMWARE_AT + i] else 0
  }

  /** At the top of the loop after i bytes; `left` is the counter. */
  ghost predicate AtLoop(start: Sh4, m: Sh4, i: nat, left: u32, size: u32) {
    && Shape(start) && Shape(m) && m.ok && m.pc == LOAD + 0x0A && m.npc == LOAD + 0x0C
    && i <= 0x10_0000 && m.r[4] == 0x8c01_0100 + i && m.r[5] == LOADER + i && m.r[6] == left
    && Copied(start, m.ram, i)
    && CodeFrom(start.ram, 0, size)
  }

  /** The first i bytes are copied; what lies above the copy is as it was. */
  ghost predicate Copied(start: Sh4, ram: seq<u8>, i: nat)
    requires Shape(start)
  {
    && |ram| == RAM_SIZE && LOADER_AT + i <= RAM_SIZE
    && (forall j | 0 <= j < i :: ram[LOADER_AT + j] == Source(start, j))
    && (forall a | LOADER_AT + i <= a < RAM_SIZE :: ram[a] == start.ram[a])
  }

  lemma UntouchedCode(start: Sh4, ram: seq<u8>, i: nat, k: nat, size: u32)
    requires Shape(start) && Copied(start, ram, i) && CodeFrom(start.ram, 0, size)
    requires LOADER_AT + i <= CODE_AT + 2 * k && k < CODE_SIZE / 2
    ensures HasHalf(ram, k, size)
  {
    hide Tramp16;
    assert HasHalf(start.ram, k, size);
  }

  lemma ExecuteLoadByte(m: Sh4, at: nat)
    requires Shape(m) && Index(m.r[4]) == at && m.r[4] < 0xFFFF_FFFF && m.npc < 0xFFFF_FFFE
    ensures at < RAM_SIZE
    ensures Execute(m, MovBInc(4, 0))
         == m.(pc := m.npc, npc := m.npc + 2, r := m.r[4 := m.r[4] + 1][0 := Wrap32(SignExtend8(m.ram[at]))])
  {
    hide Index, SignExtend8;
  }

  lemma LoadSourceByte(start: Sh4, m: Sh4, i: nat, left: u32, size: u32)
    requires AtLoop(start, m, i, left, size) && i <= 0xC00A
    ensures var r := m.r[4 := 0x8c01_0100 + i + 1][0 := Wrap32(SignExtend8(Source(start, i)))];
            Step(m) == m.(pc := LOAD + 0x0C, npc := LOAD + 0x0E, r := r)
  {
    hide Tramp16, Half, Step, Execute, HasHalf, CodeFrom, SignExtend8, Wrap32;
    UntouchedCode(start, m.ram, i, 5, size);
    Fetch(m, 5, size);
    assert Index(m.r[4]) == FIRMWARE_AT + i;
    ExecuteLoadByte(m, FIRMWARE_AT + i);
  }

  /** One round of the loop, as long as the byte written is not part of an instruction it still
      has to fetch. */
  lemma LoopRound(start: Sh4, m: Sh4, i: nat, left: u32, size: u32)
    requires AtLoop(start, m, i, left, size) && i <= 0xC00A
    ensures var e := Steps(m, 5);
            && Copied(start, e.ram, i + 1)
            && if left == 1 then AtTail(start, e, i + 1) else AtLoop(start, e, i + 1, Wrap32((left as int) - 1), size)
  {
    hide Step, Steps, HasHalf, CodeFrom, Copied, Source, SignExtend8, Wrap32;
    LoadSourceByte(start, m, i, left, size);
    var m1 := Step(m);
    UntouchedCode(start, m.ram, i, 6, size);
    StoreByte(start, m1, i, size);
    var m2 := Step(m1);
    UntouchedCode(start, m2.ram, i + 1, 7, size);
    UntouchedCode(start, m2.ram, i + 1, 8, size);
    UntouchedCode(start, m2.ram, i + 1, 9, size);
    CountDown(m2, size);
    StepsFive(m);
    CopiedFits(start, m2.ram, i + 1);
  }

  lemma CopiedFits(start: Sh4, ram: seq<u8>, i: nat)
    requires Shape(start) && Copied(start, ram, i)
    ensures |ram| == RAM_SIZE && LOADER_AT + i <= RAM_SIZE
  {
  }

  lemma StepsFive(m: Sh4)
    requires Shape(m)
    ensures Steps(m, 5) == Step(Step(Step(Step(Step(m)))))
  {
    hide Step;
    assert Steps(m, 5) == Steps(Step(m), 4);
    assert Steps(Step(m), 4) == Steps(Step(Step(m)), 3);
    assert Steps(Step(Step(m)), 3) == Steps(Step(Step(Step(m))), 2);
  }

  lemma StoreStep(m: Sh4, at: nat, b: u8, size: u32)
    requires Shape(m) && m.ok && m.pc == LOAD + 0x0C && m.npc == LOAD + 0x0E && HasHalf(m.ram, 6, size)
    requires Index(m.r[5]) == at && m.r[0] % 0x100 == b
    ensures at < RAM_SIZE && Step(m) == m.(pc := LOAD + 0x0E, npc := LOAD + 0x10, ram := m.ram[at := b])
  {
    hide Step, Decode, HasHalf, Index;
    Fetch(m, 6, size);
  }

  lemma CopiedOne(start: Sh4, ram: seq<u8>, i: nat)
    requires Shape(start) && Copied(start, ram, i) && LOADER_AT + i < RAM_SIZE
    ensures Copied(start, ram[LOADER_AT + i := Source(start, i)], i + 1)
  {
  }

  lemma LowByte(b: u8)
    ensures Wrap32(SignExtend8(b)) % 0x100 == b
  {
  }

  lemma StoreByte(start: Sh4, m: Sh4, i: nat, size: u32)
    requires Shape(start) && Shape(m) && m.ok && m.pc == LOAD + 0x0C && m.npc == LOAD + 0x0E && i <= 0xC00A
    requires m.r[5] == LOADER + i && m.r[0] == Wrap32(SignExtend8(Source(start, i)))
    requires Copied(start, m.ram, i) && HasHalf(m.ram, 6, size)
    ensures var e := Step(m);
            e == m.(pc := LOAD + 0x0E, npc := LOAD + 0x10, ram := e.ram) && Copied(start, e.ram, i + 1)
  {
    assert Index(m.r[5]) == LOADER_AT + i;
    LowByte(Source(start, i));
    hide Step, Copied, HasHalf, Source, Index;
    StoreStep(m, LOADER_AT + i, Source(start, i), size);
    CopiedOne(start, m.ram, i);
  }

  lemma CountUp(m: Sh4, size: u32)
    requires Shape(m) && m.ok && m.pc == LOAD + 0x0E && m.npc == LOAD + 0x10 && m.r[5] < 0xFFFF_FFFF
             && HasHalf(m.ram, 7, size)
    ensures Step(m) == m.(pc := LOAD + 0x10, npc := LOAD + 0x12, r := m.r[5 := m.r[5] + 1])
  {
    hide Step, Decode, HasHalf;
    Fetch(m, 7, size);
  }

  lemma Decrement(m: Sh4, size: u32)
    requires Shape(m) && m.ok && m.pc == LOAD + 0x10 && m.npc == LOAD + 0x12 && HasHalf(m.ram, 8, size)
    ensures Step(m) == m.(pc := LOAD + 0x12, npc := LOAD + 0x14, t := m.r[6] == 1,
            r := m.r[6 := Wrap32((m.r[6] as int) - 1)])
  {
    hide Step, Decode, HasHalf;
    Fetch(m, 8, size);
  }

  lemma BranchBack(m: Sh4, size: u32)
    requires Shape(m) && m.ok && m.pc == LOAD + 0x12 && m.npc == LOAD + 0x14 && HasHalf(m.ram, 9, size)
    ensures Step(m) == if m.t then m.(pc := LOAD + 0x14, npc := LOAD + 0x16)
            else m.(pc := LOAD + 0x0A, npc := LOAD + 0x0C)
  {
    hide Step, Decode, HasHalf;
    Fetch(m, 9, size);
  }

  lemma CountDown(m: Sh4, size: u32)
    requires Shape(m) && m.ok && m.pc == LOAD + 0x0E && m.npc == LOAD + 0x10 && m.r[5] < 0xFFFF_FFFF
    requires HasHalf(m.ram, 7, size) && HasHalf(m.ram, 8, size) && HasHalf(m.ram, 9, size)
    ensures var e := Step(Step(Step(m)));
            var to := if m.r[6] == 1 then LOAD + 0x14 else LOAD + 0x0A;
            e == m.(pc := to, npc := to + 2, t := m.r[6] == 1,
                r := m.r[5 := m.r[5] + 1][6 := Wrap32((m.r[6] as int) - 1)])
  {
    hide Step, HasHalf;
    CountUp(m, size);
    Decrement(Step(m), size);
    BranchBack(Step(Step(m)), size);
  }

  /** Past the loop after i bytes. */
  ghost predicate AtTail(start: Sh4, m: Sh4, i: nat) {
    Shape(start) && Shape(m) && m.ok && m.pc == LOAD + 0x14 && m.npc == LOAD + 0x16 && Copied(start, m.ram, i)
  }

  lemma {:induction false} LoopRuns(start: Sh4, m: Sh4, i: nat, left: u32, rounds: nat, size: u32)
    requires AtLoop(start, m, i, left, size) && i + rounds <= 0xC00B && rounds <= left
    ensures rounds < left ==> AtLoop(start, Steps(m, 5 * rounds), i + rounds, left - rounds, size)
    ensures rounds == left > 0 ==> AtTail(start, Steps(m, 5 * rounds), i + rounds)
    decreases rounds
  {
    hide AtLoop, AtTail;
    if rounds > 0 {
      LoopRound(start, m, i, left, size);
      LoopShape(start, m, i, left, size);
      StepsAdd(m, 5, 5 * (rounds - 1));
      if left > 1 {
        LoopRuns(start, Steps(m, 5), i + 1, left - 1, rounds - 1, size);
      }
    }
  }

  lemma LoopShape(start: Sh4, m: Sh4, i: nat, left: u32, size: u32)
    requires AtLoop(start, m, i, left, size)
    ensures Shape(m) && Shape(start)
  {
  }

  /** With the counter at zero the first decrement wraps, and the loop goes on. */
  lemma WrappedRound(start: Sh4, m: Sh4, size: u32)
    requires AtLoop(start, m, 0, 0, size)
    ensures AtLoop(start, Steps(m, 5), 1, 0xFFFF_FFFF, size)
  {
    hide AtLoop, AtTail, Steps, Copied;
    LoopShape(start, m, 0, 0, size);
    LoopRound(start, m, 0, 0, size);
    assert Wrap32(-1) == 0xFFFF_FFFF;
  }

  // ---------------------------------------------------------------- before and after the loop

  lemma SetStatus(m: Sh4, size: u32)
    requires Shape(m) && m.ok && m.pc == LOAD + 2 && m.npc == LOAD + 4 && HasHalf(m.ram, 1, size)
    ensures var e := Step(m);
            && Shape(e) && e.ok && e.pc == LOAD + 4 && e.npc == LOAD + 6 && e.ram == m.ram && e.sr == m.r[0]
  {
    hide Step, Decode, HasHalf;
    Fetch(m, 1, size);
  }

  lemma Prologue(m: Sh4, size: u32)
    requires Ready(m, size)
    ensures AtLoop(m, Steps(m, 5), 0, size, size) && Steps(m, 5).sr == 0x5000_00F0
  {
    hide Step, HasHalf;
    LoadConstant(m, 0, 0, 0x0b, 0x18, size);
    var m1 := Step(m);
    SetStatus(m1, size);
    var m2 := Step(m1);
    LoadConstant(m2, 2, 4, 0x0b, 0x1A, size);
    var m3 := Step(m2);
    LoadConstant(m3, 3, 5, 0x0c, 0x1C, size);
    var m4 := Step(m3);
    LoadConstant(m4, 4, 6, 0x0c, 0x1E, size);
    StepsFive(m);
    assert size % 0x1_0000 + 0x1_0000 * (size / 0x1_0000) == size;
  }

  lemma NopStep(m: Sh4, k: nat, size: u32)
    requires Shape(m) && m.ok && 0x0D <= k < 0x15 && m.pc == LOAD + 2 * k && m.npc == m.pc + 2
    requires HasHalf(m.ram, k, size)
    ensures Step(m) == m.(pc := m.pc + 2, npc := m.npc + 2)
  {
    hide HasHalf, Step, Decode;
    Fetch(m, k, size);
    assert Listing(k) == Nop;
  }

  lemma {:induction false} Nops(m: Sh4, k: nat, n: nat, size: u32)
    requires Shape(m) && m.ok && 0x0D <= k && k + n <= 0x15 && m.pc == LOAD + 2 * k && m.npc == m.pc + 2
    requires forall j | k <= j < k + n :: HasHalf(m.ram, j, size)
    ensures Steps(m, n) == m.(pc := m.pc + 2 * n, npc := m.npc + 2 * n)
    decreases n
  {
    hide HasHalf, Step;
    if n > 0 {
      NopStep(m, k, size);
      Nops(Step(m), k + 1, n - 1, size);
    }
  }

  lemma WriteCcr(m: Sh4, size: u32)
    requires Shape(m) && m.ok && m.pc == LOAD + 0x18 && m.npc == LOAD + 0x1A && m.r[0] == CCR
             && HasHalf(m.ram, 0x0C, size)
    ensures Step(m) == m.(pc := LOAD + 0x1A, npc := LOAD + 0x1C, ccr := m.r[1])
  {
    hide Step, Decode, HasHalf;
    Fetch(m, 0x0C, size);
  }

  lemma JumpStep(m: Sh4, size: u32)
    requires Shape(m) && m.ok && m.pc == LOAD + 0x2C && m.npc == LOAD + 0x2E && HasHalf(m.ram, 0x16, size)
    ensures Step(m) == m.(pc := LOAD + 0x2E, npc := m.r[0])
  {
    hide Step, Decode, HasHalf;
    Fetch(m, 0x16, size);
  }

  lemma DelaySlot(m: Sh4, size: u32)
    requires Shape(m) && m.ok && m.pc == LOAD + 0x2E && m.npc == ENTRY && HasHalf(m.ram, 0x17, size)
    ensures Step(m) == m.(pc := ENTRY, npc := ENTRY + 2)
  {
    hide Step, Decode, HasHalf;
    Fetch(m, 0x17, size);
  }

  lemma JumpToEntry(m: Sh4, size: u32)
    requires Shape(m) && m.ok && m.pc == LOAD + 0x2C && m.npc == LOAD + 0x2E && m.r[0] == ENTRY
    requires HasHalf(m.ram, 0x16, size) && HasHalf(m.ram, 0x17, size)
    ensures Step(Step(m)) == m.(pc := ENTRY, npc := ENTRY + 2)
  {
    hide Step, HasHalf;
    JumpStep(m, size);
    DelaySlot(Step(m), size);
  }

  /** From the end of the loop to the loader's entry: 14 instructions, no byte of RAM. */
  lemma Tail(m: Sh4, size: u32)
    requires Shape(m) && m.ok && m.pc == LOAD + 0x14 && m.npc == LOAD + 0x16 && CodeFrom(m.ram, 0x0A, size)
    ensures var e := Steps(m, 14); e.ok && e.pc == ENTRY && e.ram == m.ram && e.ccr == 0x808
  {
    hide Step, HasHalf;
    LoadConstant(m, 0x0A, 0, 0x0a, 0x20, size);
    var m1 := Step(m);
    LoadConstant(m1, 0x0B, 1, 0x0b, 0x22, size);
    var m2 := Step(m1);
    WriteCcr(m2, size);
    var m3 := Step(m2);
    Nops(m3, 0x0D, 8, size);
    var m4 := Steps(m3, 8);
    LoadConstant(m4, 0x15, 0, 7, 0x24, size);
    var m5 := Step(m4);
    JumpToEntry(m5, size);
    TailSteps(m);
  }

  lemma TailSteps(m: Sh4)
    requires Shape(m)
    ensures Steps(m, 14) == Step(Step(Step(Steps(Step(Step(Step(m))), 8))))
  {
    hide Step;
    StepsAdd(m, 3, 11);
    var a := Steps(m, 3);
    assert Steps(m, 3) == Steps(Step(m), 2) == Steps(Step(Step(m)), 1) == Step(Step(Step(m)));
    StepsAdd(a, 8, 3);
    var b := Steps(a, 8);
    assert Steps(b, 3) == Steps(Step(b), 2) == Steps(Step(Step(b)), 1) == Step(Step(Step(b)));
  }

  // ---------------------------------------------------------------- the theorem

  /** The run ends in the new loader, with the firmware where the loader was. */
  ghost predicate Installed(m: Sh4, e: Sh4, size: u32)
    requires Shape(m) && Shape(e)
  {
    && e.ok && e.pc == ENTRY && LOADER_AT + size <= RAM_SIZE && FIRMWARE_AT + size <= RAM_SIZE
    && e.ram[LOADER_AT..LOADER_AT + size] == m.ram[FIRMWARE_AT..FIRMWARE_AT + size]
  }

  ghost predicate Works(m: Sh4, size: u32)
    requires Shape(m)
  {
    exists n: nat :: Installed(m, Steps(m, n), size)
  }

  lemma TailRuns(start: Sh4, m: Sh4, i: nat, size: u32)
    requires AtTail(start, m, i) && i <= MAX_SIZE && CodeFrom(start.ram, 0, size)
    ensures var e := Steps(m, 14); e.ok && e.pc == ENTRY && Copied(start, e.ram, i)
  {
    hide Copied, HasHalf, Steps;
    forall k | 0x0A <= k < CODE_SIZE / 2
      ensures HasHalf(m.ram, k, size)
    {
      UntouchedCode(start, m.ram, i, k, size);
    }
    Tail(m, size);
  }

  function RunLength(size: u32): nat {
    5 + 5 * size + 14
  }

  lemma CopiedIsFirmware(m: Sh4, e: Sh4, size: u32)
    requires Shape(m) && Shape(e) && Copied(m, e.ram, size) && FIRMWARE_AT + size <= RAM_SIZE && e.ok && e.pc == ENTRY
    ensures Installed(m, e, size)
    ensures forall a | LOADER_AT + size <= a < RAM_SIZE :: e.ram[a] == m.ram[a]
  {
    var here, there := e.ram[LOADER_AT..LOADER_AT + size], m.ram[FIRMWARE_AT..FIRMWARE_AT + size];
    forall j | 0 <= j < size
      ensures here[j] == there[j]
    {
      assert here[j] == e.ram[LOADER_AT + j] == Source(m, j);
    }
  }

  /** For every firmware of 1 to 0xC00B bytes, from any registers and any surrounding RAM, the
      trampoline ends at the loader's entry with the firmware installed and nothing else changed. */
  lemma FirmwareIsInstalled(m: Sh4, size: u32)
    requires Ready(m, size) && 0 < size <= MAX_SIZE
    ensures Installed(m, Steps(m, RunLength(size)), size)
    ensures forall a | LOADER_AT + size <= a < RAM_SIZE :: Steps(m, RunLength(size)).ram[a] == m.ram[a]
  {
    hide AtLoop, AtTail, Steps, Step, CodeFrom, Copied, Installed;
    Prologue(m, size);
    var l := Steps(m, 5);
    LoopRuns(m, l, 0, size, size, size);
    var t := Steps(l, 5 * size);
    TailRuns(m, t, size, size);
    StepsAdd(m, 5, 5 * size + 14);
    StepsAdd(l, 5 * size, 14);
    assert RunLength(size) == 5 + (5 * size + 14);
    CopiedIsFirmware(m, Steps(t, 14), size);
  }

  // ---------------------------------------------------------------- too large, or empty

  /** Memory with the trampoline in place and a firmware that plants `mov r4,r0` in the loop. */
  function Poison(a: nat, size: u32): u8 {
    if CODE_AT <= a < CODE_AT + CODE_SIZE then
      (var w := Tramp16((a - CODE_AT) / 2, size); if a % 2 == 0 then w % 0x100 else w / 0x100 % 0x100)
    else if a == FIRMWARE_AT + 0xC00A then 0x43
    else 0
  }

  function PoisonRam(size: u32): (ram: seq<u8>)
    ensures |ram| == RAM_SIZE && forall a | 0 <= a < RAM_SIZE :: ram[a] == Poison(a, size)
  {
    seq(RAM_SIZE, a requires 0 <= a < RAM_SIZE => Poison(a, size))
  }

  function Poisoned(size: u32): (m: Sh4)
    ensures Shape(m)
  {
    Sh4(LOAD, LOAD + 2, seq(16, _ => 0), seq(8, _ => 0), 0x4000_00F0, false, 0, PoisonRam(size), true)
  }

  lemma Tramp16Fits(k: nat, size: u32)
    ensures Tramp16(k, size) < 0x1_0000
  {
  }

  lemma PoisonHasHalf(k: nat, size: u32)
    requires k < CODE_SIZE / 2
    ensures HasHalf(PoisonRam(size), k, size)
  {
    Tramp16Fits(k, size);
    hide Tramp16;
    var a := CODE_AT + 2 * k;
    assert (a - CODE_AT) / 2 == k && (a + 1 - CODE_AT) / 2 == k && a % 2 == 0 && (a + 1) % 2 == 1;
    assert PoisonRam(size)[a] == Poison(a, size) && PoisonRam(size)[a + 1] == Poison(a + 1, size);
  }

  lemma PoisonIsReady(size: u32)
    requires FIRMWARE_AT + size <= RAM_SIZE
    ensures Ready(Poisoned(size), size)
  {
    hide HasHalf, Poison;
    forall k | 0 <= k < CODE_SIZE / 2
      ensures HasHalf(PoisonRam(size), k, size)
    {
      PoisonHasHalf(k, size);
    }
  }

  /** The state the poisoned copy reaches: its next byte lands in the loop's first instruction. */
  ghost predicate Tripped(m: Sh4, left: u32, size: u32) {
    AtLoop(Poisoned(size), m, 0xC00B, left, size) && left > 0
  }

  lemma PoisonReaches(size: u32) returns (n: nat, left: u32)
    requires FIRMWARE_AT + size <= RAM_SIZE && !(0 < size <= MAX_SIZE)
    ensures Tripped(Steps(Poisoned(size), n), left, size) && (left == 1 ==> size == 0xC00C)
  {
    hide AtLoop, AtTail, Steps, Step, CodeFrom, Copied, Ready;
    var m := Poisoned(size);
    PoisonIsReady(size);
    Prologue(m, size);
    var l := Steps(m, 5);
    if size == 0 {
      WrappedRound(m, l, size);
      LoopShape(m, l, 0, 0, size);
      var l1 := Steps(l, 5);
      LoopRuns(m, l1, 1, 0xFFFF_FFFF, 0xC00A, size);
      n, left := 5 + (5 + 5 * 0xC00A), 0xFFFF_FFFF - 0xC00A;
      StepsAdd(l, 5, 5 * 0xC00A);
      StepsAdd(m, 5, 5 + 5 * 0xC00A);
    } else {
      LoopRuns(m, l, 0, size, 0xC00B, size);
      n, left := 5 + 5 * 0xC00B, size - 0xC00B;
      StepsAdd(m, 5, 5 * 0xC00B);
    }
  }

  lemma PoisonByte(a: nat, size: u32)
    ensures Source(Poisoned(size), 0xC00A) == 0x43 && Source(Poisoned(size), 0xC00B) == 0
    ensures Half(PoisonRam(size), CODE_AT + 0x0A) == 0x6044
  {
    PoisonHasHalf(5, size);
  }

  /** The copy has turned the loop's first instruction into mov r4,r0. */
  lemma PoisonHalf(m: Sh4, left: u32, size: u32)
    requires Tripped(m, left, size)
    ensures Shape(m) && Half(m.ram, CODE_AT + 0x0A) == 0x6043
  {
    hide PoisonRam, CodeFrom, Source;
    PoisonByte(0, size);
    var start := Poisoned(size);
    assert m.ram[LOADER_AT + 0xC00A] == Source(start, 0xC00A);
    assert m.ram[CODE_AT + 0x0B] == start.ram[CODE_AT + 0x0B] == 0x60;
  }

  lemma PoisonStep(m: Sh4, left: u32, size: u32)
    requires Tripped(m, left, size)
    ensures Shape(m) && Step(m) == m.(pc := LOAD + 0x0C, npc := LOAD + 0x0E, r := m.r[0 := 0x8c01_c10b])
  {
    hide Half, Source, Poisoned, Copied, CodeFrom;
    PoisonHalf(m, left, size);
    assert Decode(0x6043) == Mov(4, 0);
    assert Index(m.pc) == CODE_AT + 0x0A;
  }

  lemma PoisonStores(m: Sh4, left: u32, size: u32)
    requires Tripped(m, left, size)
    ensures Shape(m)
    ensures Step(Step(m)) == m.(pc := LOAD + 0x0E, npc := LOAD + 0x10, r := m.r[0 := 0x8c01_c10b],
            ram := m.ram[CODE_AT + 0x0B := 0x0B])
  {
    hide Step, HasHalf, Tripped, Shape;
    TrippedFacts(m, left, size);
    PoisonStep(m, left, size);
    PoisonStore(m, size);
  }

  lemma PoisonStore(m: Sh4, size: u32)
    requires Shape(m) && m.ok && m.r[5] == LOADER + 0xC00B && HasHalf(m.ram, 6, size)
    ensures var m1 := m.(pc := LOAD + 0x0C, npc := LOAD + 0x0E, r := m.r[0 := 0x8c01_c10b]);
            && Shape(m1)
            && Step(m1) == m1.(pc := LOAD + 0x0E, npc := LOAD + 0x10, ram := m.ram[CODE_AT + 0x0B := 0x0B])
  {
    hide Step, HasHalf;
    var m1 := m.(pc := LOAD + 0x0C, npc := LOAD + 0x0E, r := m.r[0 := 0x8c01_c10b]);
    assert m1.r[5] == 0x8c01_000b && Index(0x8c01_000b) == CODE_AT + 0x0B;
    hide Index;
    StoreStep(m1, CODE_AT + 0x0B, 0x0B, size);
  }

  lemma TrippedFacts(m: Sh4, left: u32, size: u32)
    requires Tripped(m, left, size)
    ensures Shape(m) && m.ok && m.r[5] == LOADER + 0xC00B && m.r[6] == left
    ensures HasHalf(m.ram, 6, size) && HasHalf(m.ram, 7, size) && HasHalf(m.ram, 8, size) && HasHalf(m.ram, 9, size)
  {
    hide HasHalf, Poisoned;
    UntouchedCode(Poisoned(size), m.ram, 0xC00B, 6, size);
    UntouchedCode(Poisoned(size), m.ram, 0xC00B, 7, size);
    UntouchedCode(Poisoned(size), m.ram, 0xC00B, 8, size);
    UntouchedCode(Poisoned(size), m.ram, 0xC00B, 9, size);
  }

  lemma HalfElsewhere(ram: seq<u8>, a: nat, b: u8, k: nat, size: u32)
    requires HasHalf(ram, k, size) && a < CODE_AT + 2 * k
    ensures HasHalf(ram[a := b], k, size)
  {
    hide Tramp16;
  }

  lemma PoisonRound(m: Sh4, left: u32, size: u32)
    requires Tripped(m, left, size)
    ensures Shape(m)
    ensures var e := Steps(m, 5);
            && e.ok && e.ram == m.ram[CODE_AT + 0x0B := 0x0B]
            && e.pc == (if left == 1 then LOAD + 0x14 else LOAD + 0x0A) && e.npc == e.pc + 2
  {
    hide Step, HasHalf, Tripped, Steps;
    PoisonStores(m, left, size);
    TrippedFacts(m, left, size);
    var m2 := Step(Step(m));
    HalfElsewhere(m.ram, CODE_AT + 0x0B, 0x0B, 7, size);
    HalfElsewhere(m.ram, CODE_AT + 0x0B, 0x0B, 8, size);
    HalfElsewhere(m.ram, CODE_AT + 0x0B, 0x0B, 9, size);
    CountDown(m2, size);
    StepsFive(m);
  }

  /** One byte too many: the run ends in the loader, but with a wrong byte. */
  lemma OneTooMany(m: Sh4, size: u32)
    requires Tripped(m, 1, size) && size == 0xC00C
    ensures Shape(m)
    ensures var e := Steps(m, 5 + 14); Final(e) && !Installed(Poisoned(size), e, size)
  {
    LoopShape(Poisoned(size), m, 0xC00B, 1, size);
    PoisonRound(m, 1, size);
    PoisonByte(0, size);
    var e5 := Steps(m, 5);
    forall k | 0x0A <= k < CODE_SIZE / 2
      ensures HasHalf(e5.ram, k, size)
    {
      UntouchedCode(Poisoned(size), m.ram, 0xC00B, k, size);
      HalfElsewhere(m.ram, CODE_AT + 0x0B, 0x0B, k, size);
    }
    hide HasHalf, Steps, AtLoop, Poison, PoisonRam;
    Tail(e5, size);
    StepsAdd(m, 5, 14);
    var e := Steps(e5, 14);
    WrongByte(Poisoned(size), e, size);
  }

  lemma WrongByte(m: Sh4, e: Sh4, size: u32)
    requires Shape(m) && Shape(e) && size == 0xC00C && e.ram[CODE_AT + 0x0B] == 0x0B && Source(m, 0xC00B) == 0
    ensures !Installed(m, e, size)
  {
    if Installed(m, e, size) {
      SliceAt(m, e, size, 0xC00B);
    }
  }

  lemma SliceAt(m: Sh4, e: Sh4, size: u32, j: nat)
    requires Shape(m) && Shape(e) && Installed(m, e, size) && j < size
    ensures e.ram[LOADER_AT + j] == m.ram[FIRMWARE_AT + j]
  {
    var here, there := e.ram[LOADER_AT..LOADER_AT + size], m.ram[FIRMWARE_AT..FIRMWARE_AT + size];
    assert here[j] == there[j];
  }

  lemma UnknownInstruction(e: Sh4)
    requires Shape(e) && e.pc == LOAD + 0x0A && Half(e.ram, CODE_AT + 0x0A) == 0x0B43
    ensures !Steps(e, 1).ok
  {
    hide Half;
    assert Decode(0x0B43) == Other;
    assert Steps(e, 1) == Step(e);
  }

  lemma TrippedByte(m: Sh4, left: u32, size: u32)
    requires Tripped(m, left, size)
    ensures Shape(m) && Half(m.ram[CODE_AT + 0x0B := 0x0B], CODE_AT + 0x0A) == 0x0B43
  {
    PoisonByte(0, size);
    assert m.ram[LOADER_AT + 0xC00A] == Source(Poisoned(size), 0xC00A);
  }

  /** More than that: the machine meets an instruction made of firmware bytes. */
  lemma ManyTooMany(m: Sh4, left: u32, size: u32)
    requires Tripped(m, left, size) && left > 1
    ensures Shape(m) && !Steps(m, 5 + 1).ok
  {
    hide Tripped, Steps, Half;
    TrippedByte(m, left, size);
    PoisonRound(m, left, size);
    UnknownInstruction(Steps(m, 5));
    StepsAdd(m, 5, 1);
  }

  lemma PoisonFails(size: u32)
    requires FIRMWARE_AT + size <= RAM_SIZE && !(0 < size <= MAX_SIZE)
    ensures !Works(Poisoned(size), size)
  {
    hide Steps, Step, Installed, Tripped;
    var m := Poisoned(size);
    var n, left := PoisonReaches(size);
    var t := Steps(m, n);
    TrippedLeft(t, left, size);
    var more := if left == 1 then 5 + 14 else 5 + 1;
    if left == 1 {
      OneTooMany(t, size);
    } else {
      ManyTooMany(t, left, size);
      FailedIsNotInstalled(m, Steps(t, more), size);
    }
    StepsAdd(m, n, more);
    forall k: nat
      ensures !Installed(m, Steps(m, k), size)
    {
      InstalledIsFinal(m, Steps(m, k), size);
      if Final(Steps(m, k)) {
        OneEnd(m, k, n + more);
      }
    }
  }

  lemma TrippedLeft(m: Sh4, left: u32, size: u32)
    requires Tripped(m, left, size)
    ensures Shape(m) && left > 0
  {
  }

  lemma FailedIsNotInstalled(m: Sh4, e: Sh4, size: u32)
    requires Shape(m) && Shape(e) && !e.ok
    ensures !Installed(m, e, size)
  {
  }

  lemma InstalledIsFinal(m: Sh4, e: Sh4, size: u32)
    requires Shape(m) && Shape(e)
    ensures Installed(m, e, size) ==> Final(e)
  {
  }

  /** The sizes that work for every firmware, every RAM and every register: 1 to 0xC00B. There is no
      instruction cache here: a stored byte is what the next fetch sees. */
  lemma SizesThatWork(size: u32)
    requires FIRMWARE_AT + size <= RAM_SIZE
    ensures (forall m: Sh4 | Ready(m, size) :: Works(m, size)) <==> 0 < size <= MAX_SIZE
  {
    hide CodeFrom, Steps, Installed;
    if 0 < size <= MAX_SIZE {
      forall m: Sh4 | Ready(m, size)
        ensures Works(m, size)
      {
        ReadyShape(m, size);
        FirmwareIsInstalled(m, size);
      }
    } else {
      PoisonIsReady(size);
      PoisonFails(size);
    }
  }

  lemma ReadyShape(m: Sh4, size: u32)
    requires Ready(m, size)
    ensures Shape(m)
  {
  }
}
