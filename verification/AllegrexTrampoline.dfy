/**
 The PSP firmware trampoline, `allegrex_trampoline`, run from the blob `perform_update`
 uploads: it installs a firmware of 1 to 0x100000 bytes, and spins untouched on any other size.
 */
module AllegrexTrampoline {
  import opened Bytes
  import opened AllegrexMachine

  const LOAD: u32 := 0x0880_4000
  const CODE_AT := 0x80_4000          // its RAM index
  const FIRMWARE_AT := 0x80_4200
  const CODE_WORDS := 0x80
  const MAX_SIZE := 0x10_0000
  const BAD: u32 := 0x0880_4114       // tramp_bad

  /** The trampoline as little-endian words; the size word is patched by the host. */
  function Tramp(k: nat, size: u32): u32 {
    match k
    case 0x00 => 0x400E_6000 case 0x01 => 0x240F_FFFE case 0x02 => 0x01CF_7024 case 0x03 => 0x408E_6000
    case 0x06 => 0x0411_0001
    case 0x08 => 0x240E_0020 case 0x09 => 0x03EE_4023 case 0x0A => 0x3C0E_1FFF case 0x0B => 0x35CE_FFFF
    case 0x0C => 0x010E_5024 case 0x0D => 0x3C0E_4000 case 0x0E => 0x014E_5025 case 0x0F => 0x240E_010C
    case 0x10 => 0x010E_7021 case 0x11 => 0x408E_C800
    case 0x14 => 0x40CE_4800
    case 0x17 => 0x8D50_01F0 case 0x18 => 0x8D4B_01F8 case 0x19 => 0x254D_0200 case 0x1A => 0x3C0E_0800
    case 0x1B => 0x020E_782B case 0x1C => 0x15E0_0028
    case 0x1E => 0x3C0E_0A00 case 0x1F => 0x020E_782B case 0x20 => 0x11E0_0024
    case 0x22 => 0x1160_0022
    case 0x24 => 0x3C0E_0010 case 0x25 => 0x01CB_782B case 0x26 => 0x15E0_001E
    case 0x28 => 0x0200_6025 case 0x29 => 0x0200_7825 case 0x2A => 0x256B_0003 case 0x2B => 0x240E_FFFC
    case 0x2C => 0x016E_5824 case 0x2D => 0x0160_C025 case 0x2E => 0x1160_0008
    case 0x30 => 0x8DAE_0000 case 0x31 => 0xAD8E_0000 case 0x32 => 0x25AD_0004 case 0x33 => 0x258C_0004
    case 0x34 => 0x256B_FFFC case 0x35 => 0x1560_FFFA
    case 0x37 => 0x01F8_C821 case 0x38 => 0x1300_0007
    case 0x3A => 0xBDFB_0000 case 0x3B => 0xBDE8_0000 case 0x3C => 0x25EF_0040 case 0x3D => 0x01F9_702B
    case 0x3E => 0x15C0_FFFB
    case 0x40 => 0x0000_000F case 0x41 => 0x0200_0008
    case 0x43 => 0x1000_FFFF
    case 0x45 => 0x1000_FFFF
    case 0x7C => 0x0800_0000   // destination
    case 0x7E => size
    case _ => 0
  }

  // register names
  const ZERO := 0
  const T0 := 8
  const T2 := 10
  const T3 := 11
  const T4 := 12
  const T5 := 13
  const T6 := 14
  const T7 := 15
  const S0 := 16
  const T8 := 24
  const T9 := 25
  const RA := 31

  function Listing(k: nat): Instr {
    match k
    case 0x00 => Mfc0(T6, 12) case 0x01 => Addiu(T7, ZERO, 0xFFFE) case 0x02 => AndR(T6, T6, T7)
    case 0x03 => Mtc0(T6, 12) case 0x06 => Bal(1) case 0x08 => Addiu(T6, ZERO, 32)
    case 0x09 => Subu(T0, RA, T6) case 0x0A => Lui(T6, 0x1FFF) case 0x0B => Ori(T6, T6, 0xFFFF)
    case 0x0C => AndR(T2, T0, T6) case 0x0D => Lui(T6, 0x4000) case 0x0E => OrR(T2, T2, T6)
    case 0x0F => Addiu(T6, ZERO, 268) case 0x10 => Addu(T6, T0, T6) case 0x11 => Mtc0(T6, 25)
    case 0x14 => Ctc0(T6, 9) case 0x17 => Lw(S0, T2, 496) case 0x18 => Lw(T3, T2, 504)
    case 0x19 => Addiu(T5, T2, 512) case 0x1A => Lui(T6, 0x800) case 0x1B => Sltu(T7, S0, T6)
    case 0x1C => Bne(T7, ZERO, 0x28) case 0x1E => Lui(T6, 0xA00) case 0x1F => Sltu(T7, S0, T6)
    case 0x20 => Beq(T7, ZERO, 0x24) case 0x22 => Beq(T3, ZERO, 0x22) case 0x24 => Lui(T6, 0x10)
    case 0x25 => Sltu(T7, T6, T3) case 0x26 => Bne(T7, ZERO, 0x1E) case 0x28 => OrR(T4, S0, ZERO)
    case 0x29 => OrR(T7, S0, ZERO) case 0x2A => Addiu(T3, T3, 3)
    case 0x2B => Addiu(T6, ZERO, 0xFFFC) case 0x2C => AndR(T3, T3, T6)
    case 0x2D => OrR(T8, T3, ZERO) case 0x2E => Beq(T3, ZERO, 8) case 0x30 => Lw(T6, T5, 0)
    case 0x31 => Sw(T6, T4, 0) case 0x32 => Addiu(T5, T5, 4) case 0x33 => Addiu(T4, T4, 4)
    case 0x34 => Addiu(T3, T3, 0xFFFC) case 0x35 => Bne(T3, ZERO, 0xFFFA)
    case 0x37 => Addu(T9, T7, T8) case 0x38 => Beq(T8, ZERO, 7) case 0x3C => Addiu(T7, T7, 64)
    case 0x3D => Sltu(T6, T7, T9) case 0x3E => Bne(T6, ZERO, 0xFFFB) case 0x41 => Jr(S0)
    case 0x43 => Beq(ZERO, ZERO, 0xFFFF) case 0x45 => Beq(ZERO, ZERO, 0xFFFF) case _ => Quiet
  }

  lemma ListingFields(k: nat)
    requires k < 0x47
    ensures FieldsOk(Listing(k))
  {
  }

  lemma CodeIsEncoded(k: nat, size: u32)
    requires k < 0x47
    ensures Tramp(k, size) == Encode(Listing(k))
            || (Listing(k) == Quiet && Tramp(k, size) in {0x0F, 0xBDFB_0000, 0xBDE8_0000})
  {
    if k < 0x17 {
      StartIsEncoded(k, size);
    } else if k < 0x2A {
      ChecksAreEncoded(k, size);
    } else {
      CopyIsEncoded(k, size);
    }
  }

  lemma StartIsEncoded(k: nat, size: u32)
    requires k < 0x17
    ensures Tramp(k, size) == Encode(Listing(k))
  {
  }

  lemma ChecksAreEncoded(k: nat, size: u32)
    requires 0x17 <= k < 0x2A
    ensures Tramp(k, size) == Encode(Listing(k))
  {
  }

  lemma CopyIsEncoded(k: nat, size: u32)
    requires 0x2A <= k < 0x47
    ensures Tramp(k, size) == Encode(Listing(k))
            || (Listing(k) == Quiet && Tramp(k, size) in {0x0F, 0xBDFB_0000, 0xBDE8_0000})
  {
  }

  lemma ListingIsTheCode(k: nat, size: u32)
    requires k < 0x47
    ensures Decode(Tramp(k, size)) == Listing(k)
  {
    hide Decode, Tramp, Listing, Encode, FieldsOk;
    ListingFields(k);
    CodeIsEncoded(k, size);
    EncodeDecodes(Listing(k));
    DecodeQuiet();
  }

  predicate HasWord(ram: seq<u8>, k: nat, size: u32) {
    |ram| == RAM_SIZE && k < CODE_WORDS && Word(ram, CODE_AT + 4 * k) == Tramp(k, size)
  }

  ghost predicate HasCode(ram: seq<u8>, size: u32) {
    forall k | 0 <= k < CODE_WORDS :: HasWord(ram, k, size)
  }

  /** At word k of the trampoline, with `next` to follow. */
  ghost predicate At(m: Mips, k: nat, next: int, size: u32) {
    Shape(m) && m.ok && m.pc == LOAD + 4 * k && m.npc == next && HasCode(m.ram, size)
  }

  // ---------------------------------------------------------------- single instructions

  lemma CodeAddress(k: nat)
    requires k < CODE_WORDS
    ensures var a: u32 := LOAD + 4 * k; Index(a) == CODE_AT + 4 * k && WordAt(a) && a != ENTRY
  {
  }

  lemma StepIs(m: Mips, x: nat, w: u32)
    requires Shape(m) && m.ok && m.pc != ENTRY && WordAt(m.pc) && Index(m.pc) == x && x + 4 <= RAM_SIZE
             && Word(m.ram, x) == w
    ensures Step(m) == Execute(m, Decode(w))
  {
    hide Execute, Decode, Word, Index;
  }

  lemma AtMeans(m: Mips, k: nat, next: int, size: u32)
    requires At(m, k, next, size) && k < CODE_WORDS
    ensures Shape(m) && m.ok && m.pc == LOAD + 4 * k && m.npc == next && Word(m.ram, CODE_AT + 4 * k) == Tramp(k, size)
  {
    hide Tramp, Word;
    assert HasWord(m.ram, k, size);
  }

  lemma Fetch(m: Mips, k: nat, next: int, size: u32)
    requires At(m, k, next, size) && k < 0x47
    ensures Shape(m) && Step(m) == Execute(m, Listing(k))
  {
    hide Execute, Decode, Listing, Tramp, Word, Index, WordAt, Step, At, Shape;
    AtMeans(m, k, next, size);
    CodeAddress(k);
    ListingIsTheCode(k, size);
    StepIs(m, CODE_AT + 4 * k, Tramp(k, size));
  }

  /** Instructions that set one register and change nothing else. */
  function Dest(i: Instr): nat {
    match i
    case Mfc0(rt, rd) => if rd == 12 then rt else 0
    case Addiu(rt, _, _) => rt case Ori(rt, _, _) => rt case Lui(rt, _) => rt
    case AndR(rd, _, _) => rd case OrR(rd, _, _) => rd case Addu(rd, _, _) => rd
    case Subu(rd, _, _) => rd case Sltu(rd, _, _) => rd
    case _ => 0
  }

  function Result(m: Mips, i: Instr): int
    requires Shape(m) && RegsOk(i)
  {
    match i
    case Mfc0(_, _) => m.status
    case Addiu(_, rs, imm) => (m.r[rs] as int) + Signed16(imm)
    case Ori(_, rs, imm) => Or(m.r[rs], imm)
    case Lui(_, imm) => imm * 0x1_0000
    case AndR(_, rs, rt) => And(m.r[rs], m.r[rt])
    case OrR(_, rs, rt) => Or(m.r[rs], m.r[rt])
    case Addu(_, rs, rt) => (m.r[rs] as int) + m.r[rt]
    case Subu(_, rs, rt) => (m.r[rs] as int) - m.r[rt]
    case Sltu(_, rs, rt) => if m.r[rs] < m.r[rt] then 1 else 0
    case _ => 0
  }

  function Put(m: Mips, n: nat, v: u32): (e: Mips)
    requires Shape(m) && 0 < n < 32 && m.npc < 0xFFFF_FFFC
    ensures Shape(e)
  {
    m.(pc := m.npc, npc := m.npc + 4, r := m.r[n := v])
  }

  lemma ExecutePuts(m: Mips, i: Instr, v: u32)
    requires Shape(m) && RegsOk(i) && 0 < Dest(i) < 32 && m.npc < 0xFFFF_FFFC && Wrap32(Result(m, i)) == v
    ensures Execute(m, i) == Put(m, Dest(i), v)
  {
    hide And, Or;
  }

  lemma AluWraps(m: Mips, k: nat, v: u32, size: u32)
    requires At(m, k, LOAD + 4 * k + 4, size) && k < 0x46 && RegsOk(Listing(k)) && 0 < Dest(Listing(k)) < 32
    requires Wrap32(Result(m, Listing(k))) == v
    ensures Step(m) == Put(m, Dest(Listing(k)), v) && At(Step(m), k + 1, LOAD + 4 * k + 8, size)
  {
    hide Step, Listing, HasCode, Execute, Result, Dest;
    Fetch(m, k, LOAD + 4 * k + 4, size);
    ExecutePuts(m, Listing(k), v);
  }

  lemma WordFits(v: u32)
    ensures Wrap32(v) == v
  {
  }

  /** The common case: the result fits. */
  lemma Alu(m: Mips, k: nat, v: u32, size: u32)
    requires At(m, k, LOAD + 4 * k + 4, size) && k < 0x46 && RegsOk(Listing(k)) && 0 < Dest(Listing(k)) < 32
    requires Result(m, Listing(k)) == v
    ensures Step(m) == Put(m, Dest(Listing(k)), v) && At(Step(m), k + 1, LOAD + 4 * k + 8, size)
  {
    hide Step, Listing, HasCode, Execute, Result, Dest, Wrap32, RegsOk;
    WordFits(v);
    AluWraps(m, k, v, size);
  }

  lemma Rest(m: Mips, k: nat, next: int, size: u32)
    requires At(m, k, next, size) && k < 0x47 && Listing(k) == Quiet && next < 0xFFFF_FFFC
    ensures Step(m) == m.(pc := next, npc := next + 4)
  {
    hide Step, Listing, HasCode;
    Fetch(m, k, next, size);
  }

  /** Where a forward branch at word k goes. */
  lemma TargetIs(m: Mips, k: nat, to: nat)
    requires k < to < CODE_WORDS && m.npc == LOAD + 4 * k + 4
    ensures Target(m, to - k - 1) == LOAD + 4 * to
  {
  }

  /** Is `i` a branch that goes to `to` when `taken`? */
  predicate Branches(m: Mips, i: Instr, to: int, taken: bool)
    requires Shape(m)
  {
    match i
    case Beq(rs, rt, off) => rs < 32 && rt < 32 && (taken <==> m.r[rs] == m.r[rt]) && Target(m, off) == to
    case Bne(rs, rt, off) => rs < 32 && rt < 32 && (taken <==> m.r[rs] != m.r[rt]) && Target(m, off) == to
    case _ => false
  }

  lemma ExecuteBranch(m: Mips, i: Instr, to: u32, taken: bool)
    requires Shape(m) && Branches(m, i, to, taken) && m.npc < 0xFFFF_FFFC
    ensures Execute(m, i) == m.(pc := m.npc, npc := if taken then to else m.npc + 4)
  {
    hide Target;
  }

  /** A branch and the nop in its delay slot. */
  lemma Branch(m: Mips, k: nat, to: nat, taken: bool, size: u32)
    requires At(m, k, LOAD + 4 * k + 4, size) && k < 0x45 && to < CODE_WORDS && Listing(k + 1) == Quiet
    requires Branches(m, Listing(k), LOAD + 4 * to, taken)
    ensures var j := if taken then to else k + 2;
            Step(Step(m)) == m.(pc := LOAD + 4 * j, npc := LOAD + 4 * j + 4)
                && At(Step(Step(m)), j, LOAD + 4 * j + 4, size)
  {
    hide HasCode, Step, Listing, Execute, Branches;
    Fetch(m, k, LOAD + 4 * k + 4, size);
    ExecuteBranch(m, Listing(k), LOAD + 4 * to, taken);
    Rest(Step(m), k + 1, if taken then LOAD + 4 * to else LOAD + 4 * k + 8, size);
  }

  lemma WriteStatus(m: Mips, size: u32)
    requires At(m, 3, LOAD + 0x10, size)
    ensures var e := Step(m); e == m.(pc := LOAD + 0x10, npc := LOAD + 0x14, status := m.r[T6])
  {
    hide Step, HasCode;
    Fetch(m, 3, LOAD + 0x10, size);
  }

  lemma WriteExcept(m: Mips, size: u32)
    requires At(m, 0x11, LOAD + 0x48, size)
    ensures var e := Step(m); e == m.(pc := LOAD + 0x48, npc := LOAD + 0x4C, except := m.r[T6])
  {
    hide Step, HasCode;
    Fetch(m, 0x11, LOAD + 0x48, size);
  }

  lemma WriteControl9(m: Mips, size: u32)
    requires At(m, 0x14, LOAD + 0x54, size)
    ensures var e := Step(m); e == m.(pc := LOAD + 0x54, npc := LOAD + 0x58, control9 := m.r[T6])
  {
    hide Step, HasCode;
    Fetch(m, 0x14, LOAD + 0x54, size);
  }

  lemma BranchAndLink(m: Mips, size: u32)
    requires At(m, 6, LOAD + 0x1C, size)
    ensures Step(m) == m.(pc := LOAD + 0x1C, npc := LOAD + 0x20, r := m.r[RA := LOAD + 0x20])
  {
    hide Step, HasCode;
    Fetch(m, 6, LOAD + 0x1C, size);
  }

  lemma ExecuteLw(m: Mips, rt: nat, base: nat, off: nat, x: nat)
    requires Shape(m) && 0 < rt < 32 && base < 32 && m.npc < 0xFFFF_FFFC
    requires Index(Address(m, base, off)) == x && WordAt(Address(m, base, off))
    ensures x + 4 <= RAM_SIZE && Execute(m, Lw(rt, base, off)) == Put(m, rt, Word(m.ram, x))
  {
    hide Index, Word, Address;
  }

  lemma ReadWord(m: Mips, k: nat, rt: nat, base: nat, off: nat, x: nat, size: u32)
    requires At(m, k, LOAD + 4 * k + 4, size) && k < 0x46 && Listing(k) == Lw(rt, base, off) && 0 < rt < 32 && base < 32
    requires Index(Address(m, base, off)) == x && WordAt(Address(m, base, off))
    ensures x + 4 <= RAM_SIZE && Step(m) == Put(m, rt, Word(m.ram, x)) && At(Step(m), k + 1, LOAD + 4 * k + 8, size)
  {
    hide Step, HasCode, Listing, Index, Word, WordAt, Address, Execute;
    Fetch(m, k, LOAD + 4 * k + 4, size);
    ExecuteLw(m, rt, base, off, x);
  }

  // ---------------------------------------------------------------- before the copy

  /** RAM, and what the trampoline has established about the coprocessor. */
  ghost predicate Quieted(m: Mips, ram: seq<u8>) {
    m.ram == ram && m.status % 2 == 0
  }

  ghost predicate Guarded(m: Mips, ram: seq<u8>) {
    Quieted(m, ram) && m.except == LOAD + 0x10C && m.control9 == LOAD + 0x10C
  }

  lemma Literals()
    ensures Or(0x1FFF_0000, 0xFFFF) == 0x1FFF_FFFF
    ensures And(0x0880_4000, 0x1FFF_FFFF) == 0x0880_4000
    ensures Or(0x0880_4000, 0x4000_0000) == 0x4880_4000
  {
    hide And, Or, Pow2;
    Powers();
    OrDisjoint(0x1FFF, 16, 0xFFFF);
    AndOnes(0x0880_4000, 29);
    OrDisjoint(1, 30, 0x0880_4000);
  }

  lemma MaskInterrupts(m: Mips, size: u32)
    requires At(m, 0, LOAD + 4, size)
    ensures var e := Steps(m, 4); At(e, 4, LOAD + 0x14, size) && Quieted(e, m.ram)
  {
    hide Step, Steps, HasCode, And, Or, Execute, Decode, Index, Word, WordAt, Tramp;
    Alu(m, 0, m.status, size);
    var m1 := Step(m);
    AluWraps(m1, 1, 0xFFFF_FFFE, size);
    var m2 := Step(m1);
    ClearLowBits(m.status);
    Alu(m2, 2, m.status - m.status % 2, size);
    var m3 := Step(m2);
    WriteStatus(m3, size);
    StepsFour(m);
  }

  lemma StepsFour(m: Mips)
    requires Shape(m)
    ensures Steps(m, 4) == Step(Step(Step(Step(m)))) && Steps(m, 2) == Step(Step(m))
            && Steps(m, 3) == Step(Step(Step(m)))
  {
    hide Step;
    assert Steps(m, 4) == Steps(Step(m), 3);
    assert Steps(Step(m), 3) == Steps(Step(Step(m)), 2);
  }

  lemma FindItself(m: Mips, size: u32)
    requires At(m, 4, LOAD + 0x14, size)
    ensures var e := Steps(m, 4);
            At(e, 8, LOAD + 0x24, size) && e == m.(pc := LOAD + 0x20, npc := LOAD + 0x24, r := m.r[RA := LOAD + 0x20])
  {
    hide Step, Steps, HasCode, And, Or, Execute, Decode, Index, Word, WordAt, Tramp;
    RestTwo(m, 4, size);
    StepsAdd(m, 2, 2);
    LinkAndRest(Steps(m, 2), size);
  }

  lemma LinkAndRest(m: Mips, size: u32)
    requires At(m, 6, LOAD + 0x1C, size)
    ensures var e := Steps(m, 2);
            At(e, 8, LOAD + 0x24, size) && e == m.(pc := LOAD + 0x20, npc := LOAD + 0x24, r := m.r[RA := LOAD + 0x20])
  {
    hide Step, Steps, HasCode, And, Or, Execute, Decode, Index, Word, WordAt, Tramp;
    BranchAndLink(m, size);
    Rest(Step(m), 7, LOAD + 0x20, size);
    StepsFour(m);
  }

  lemma ComputeBase(m: Mips, size: u32)
    requires At(m, 8, LOAD + 0x24, size) && m.r[RA] == LOAD + 0x20
    ensures var e := Steps(m, 4);
            && At(e, 0x0C, LOAD + 0x34, size) && e.r[T0] == LOAD && e.r[T6] == 0x1FFF_FFFF
            && e == m.(pc := LOAD + 0x30, npc := LOAD + 0x34, r := e.r)
  {
    hide Step, Steps, HasCode, And, Or, Execute, Decode, Index, Word, WordAt, Tramp;
    Alu(m, 8, 32, size);
    var m1 := Step(m);
    Alu(m1, 9, LOAD, size);
    var m2 := Step(m1);
    Alu(m2, 0x0A, 0x1FFF_0000, size);
    var m3 := Step(m2);
    Literals();
    Alu(m3, 0x0B, 0x1FFF_FFFF, size);
    StepsFour(m);
  }

  lemma ComputeAlias(m: Mips, size: u32)
    requires At(m, 0x0C, LOAD + 0x34, size) && m.r[T0] == LOAD && m.r[T6] == 0x1FFF_FFFF
    ensures var e := Steps(m, 4);
            && At(e, 0x10, LOAD + 0x44, size) && e.r[T0] == LOAD && e.r[T2] == 0x4880_4000 && e.r[T6] == 268
            && e == m.(pc := LOAD + 0x40, npc := LOAD + 0x44, r := e.r)
  {
    hide Step, Steps, HasCode, And, Or, Execute, Decode, Index, Word, WordAt, Tramp;
    Literals();
    Alu(m, 0x0C, LOAD, size);
    var m1 := Step(m);
    Alu(m1, 0x0D, 0x4000_0000, size);
    var m2 := Step(m1);
    Alu(m2, 0x0E, 0x4880_4000, size);
    var m3 := Step(m2);
    Alu(m3, 0x0F, 268, size);
    StepsFour(m);
  }

  lemma RestTwo(m: Mips, k: nat, size: u32)
    requires At(m, k, LOAD + 4 * k + 4, size) && k < 0x45 && Listing(k) == Quiet && Listing(k + 1) == Quiet
    ensures var e := Steps(m, 2);
            At(e, k + 2, LOAD + 4 * k + 12, size) && e == m.(pc := m.pc + 8, npc := m.npc + 8)
  {
    hide Step, Steps, HasCode, And, Or, Execute, Decode, Index, Word, WordAt, Tramp;
    hide Listing;
    Rest(m, k, LOAD + 4 * k + 4, size);
    Rest(Step(m), k + 1, LOAD + 4 * k + 8, size);
    StepsFour(m);
  }

  lemma SetVector(m: Mips, size: u32)
    requires At(m, 0x10, LOAD + 0x44, size) && m.r[T0] == LOAD && m.r[T6] == 268
    ensures var e := Steps(m, 2);
            At(e, 0x12, LOAD + 0x4C, size)
            && e == m.(pc := LOAD + 0x48, npc := LOAD + 0x4C, except := LOAD + 0x10C, r := m.r[T6 := LOAD + 0x10C])
  {
    hide Step, Steps, HasCode, And, Or, Execute, Decode, Index, Word, WordAt, Tramp;
    Alu(m, 0x10, LOAD + 0x10C, size);
    WriteExcept(Step(m), size);
    StepsFour(m);
  }

  lemma SetControl(m: Mips, size: u32)
    requires At(m, 0x14, LOAD + 0x54, size) && m.r[T6] == LOAD + 0x10C
    ensures var e := Steps(m, 3);
            At(e, 0x17, LOAD + 0x60, size) && e == m.(pc := LOAD + 0x5C, npc := LOAD + 0x60, control9 := LOAD + 0x10C)
  {
    hide Step, Steps, HasCode, And, Or, Execute, Decode, Index, Word, WordAt, Tramp;
    WriteControl9(m, size);
    RestTwo(Step(m), 0x15, size);
    StepsFour(m);
    StepsAdd(m, 1, 2);
    assert Steps(m, 1) == Step(m) by { OneStep(m); }
  }

  lemma OneStep(m: Mips)
    requires Shape(m)
    ensures Steps(m, 1) == Step(m)
  {
    hide Step;
  }

  /** The exception vectors point into the trampoline before anything is stored. */
  lemma GuardExceptions(m: Mips, size: u32)
    requires At(m, 0x10, LOAD + 0x44, size) && m.r[T0] == LOAD && m.r[T2] == 0x4880_4000 && m.r[T6] == 268
             && m.status % 2 == 0
    ensures var e := Steps(m, 7); At(e, 0x17, LOAD + 0x60, size) && e.r[T2] == 0x4880_4000 && Guarded(e, m.ram)
  {
    hide Steps, HasCode;
    SetVector(m, size);
    RestTwo(Steps(m, 2), 0x12, size);
    StepsAdd(m, 2, 2);
    SetControl(Steps(m, 4), size);
    StepsAdd(m, 4, 3);
  }

  lemma Parameters(m: Mips, size: u32)
    requires Shape(m) && HasCode(m.ram, size)
    ensures Index(0x4880_41F0) == CODE_AT + 4 * 0x7C && Index(0x4880_41F8) == CODE_AT + 4 * 0x7E
    ensures WordAt(0x4880_41F0) && WordAt(0x4880_41F8)
    ensures Word(m.ram, CODE_AT + 4 * 0x7C) == ENTRY && Word(m.ram, CODE_AT + 4 * 0x7E) == size
  {
    hide Word;
    assert HasWord(m.ram, 0x7C, size) && HasWord(m.ram, 0x7E, size);
  }

  lemma ReadDestination(m: Mips, size: u32)
    requires At(m, 0x17, LOAD + 0x60, size) && m.r[T2] == 0x4880_4000
    ensures At(Step(m), 0x18, LOAD + 0x64, size) && Step(m) == Put(m, S0, ENTRY)
  {
    hide Step, Steps, HasCode, And, Or, Execute, Decode, Index, Word, WordAt, Tramp;
    Parameters(m, size);
    assert Address(m, T2, 496) == 0x4880_41F0;
    ReadWord(m, 0x17, S0, T2, 496, CODE_AT + 4 * 0x7C, size);
  }

  lemma ReadSize(m: Mips, size: u32)
    requires At(m, 0x18, LOAD + 0x64, size) && m.r[T2] == 0x4880_4000
    ensures At(Step(m), 0x19, LOAD + 0x68, size) && Step(m) == Put(m, T3, size)
  {
    hide Step, Steps, HasCode, And, Or, Execute, Decode, Index, Word, WordAt, Tramp;
    Parameters(m, size);
    assert Address(m, T2, 504) == 0x4880_41F8;
    ReadWord(m, 0x18, T3, T2, 504, CODE_AT + 4 * 0x7E, size);
  }

  lemma ReadParameters(m: Mips, size: u32)
    requires At(m, 0x17, LOAD + 0x60, size) && m.r[T2] == 0x4880_4000
    ensures var e := Steps(m, 3);
            && At(e, 0x1A, LOAD + 0x6C, size) && e.r[S0] == ENTRY && e.r[T3] == size && e.r[T5] == 0x4880_4200
            && e == m.(pc := LOAD + 0x68, npc := LOAD + 0x6C, r := e.r)
  {
    hide Step, Steps, HasCode, And, Or, Execute, Decode, Index, Word, WordAt, Tramp;
    ReadDestination(m, size);
    var m1 := Step(m);
    ReadSize(m1, size);
    var m2 := Step(m1);
    Alu(m2, 0x19, 0x4880_4200, size);
    StepsFour(m);
  }

  // ---------------------------------------------------------------- the checks

  /** Two ALU instructions, a branch and its delay slot; the state after them but for registers
      T6 and T7. */
  ghost predicate Same(m: Mips, e: Mips) {
    && Shape(m) && Shape(e) && e.ram == m.ram && e.status == m.status && e.except == m.except
        && e.control9 == m.control9
    && e.r[S0] == m.r[S0] && e.r[T3] == m.r[T3] && e.r[T5] == m.r[T5]
  }

  lemma NotTooLow(m: Mips, size: u32)
    requires At(m, 0x1A, LOAD + 0x6C, size) && m.r[S0] == ENTRY
    ensures var e := Steps(m, 4); At(e, 0x1E, LOAD + 0x7C, size) && Same(m, e)
  {
    hide Step, Steps, HasCode, And, Or, Execute, Decode, Index, Word, WordAt, Tramp, Target;
    Alu(m, 0x1A, 0x800_0000, size);
    var m1 := Step(m);
    Alu(m1, 0x1B, 0, size);
    var m2 := Step(m1);
    TargetIs(m2, 0x1C, 0x45);
    Branch(m2, 0x1C, 0x45, false, size);
    StepsFour(m);
  }

  lemma NotTooHigh(m: Mips, size: u32)
    requires At(m, 0x1E, LOAD + 0x7C, size) && m.r[S0] == ENTRY
    ensures var e := Steps(m, 4); At(e, 0x22, LOAD + 0x8C, size) && Same(m, e)
  {
    hide Step, Steps, HasCode, And, Or, Execute, Decode, Index, Word, WordAt, Tramp, Target;
    Alu(m, 0x1E, 0xA00_0000, size);
    var m1 := Step(m);
    Alu(m1, 0x1F, 1, size);
    var m2 := Step(m1);
    TargetIs(m2, 0x20, 0x45);
    Branch(m2, 0x20, 0x45, false, size);
    StepsFour(m);
  }

  lemma NotEmpty(m: Mips, size: u32)
    requires At(m, 0x22, LOAD + 0x8C, size) && m.r[T3] == size
    ensures var e := Steps(m, 2);
            Same(m, e) && if size == 0 then At(e, 0x45, BAD + 4, size) else At(e, 0x24, LOAD + 0x94, size)
  {
    hide Step, Steps, HasCode, And, Or, Execute, Decode, Index, Word, WordAt, Tramp;
    AtMeans(m, 0x22, LOAD + 0x8C, size);
    Branch(m, 0x22, 0x45, size == 0, size);
    StepsFour(m);
  }

  lemma CompareLength(m: Mips, size: u32)
    requires At(m, 0x24, LOAD + 0x94, size) && m.r[T3] == size
    ensures var e := Step(Step(m));
            At(e, 0x26, LOAD + 0x9C, size)
            && e == Put(Put(m, T6, 0x10_0000), T7, if size > MAX_SIZE then 1 else 0)
  {
    hide Step, Steps, HasCode, And, Or, Execute, Decode, Index, Word, WordAt, Tramp;
    Alu(m, 0x24, 0x10_0000, size);
    Alu(Step(m), 0x25, if size > MAX_SIZE then 1 else 0, size);
  }

  lemma NotTooLong(m: Mips, size: u32)
    requires At(m, 0x24, LOAD + 0x94, size) && m.r[T3] == size
    ensures var e := Steps(m, 4);
            Same(m, e) && if size > MAX_SIZE then At(e, 0x45, BAD + 4, size) else At(e, 0x28, LOAD + 0xA4, size)
  {
    hide Step, Steps, HasCode, And, Or, Execute, Decode, Index, Word, WordAt, Tramp, Target;
    CompareLength(m, size);
    var m2 := Step(Step(m));
    TargetIs(m2, 0x26, 0x45);
    Branch(m2, 0x26, 0x45, size > MAX_SIZE, size);
    StepsFour(m);
  }

  /** The uploaded blob has control: any registers, any RAM around it. */
  ghost predicate Ready(m: Mips, size: u32) {
    At(m, 0, LOAD + 4, size)
  }

  /** Parameters read, interrupts masked, exception vectors out of the way, nothing stored. */
  ghost predicate Prepared(m: Mips, ram: seq<u8>, size: u32) {
    Shape(m) && Guarded(m, ram) && m.r[S0] == ENTRY && m.r[T3] == size && m.r[T5] == 0x4880_4200
  }

  lemma Prepare(m: Mips, size: u32)
    requires Ready(m, size)
    ensures var e := Steps(m, 26); At(e, 0x1A, LOAD + 0x6C, size) && Prepared(e, m.ram, size)
  {
    hide Steps, HasCode;
    MaskInterrupts(m, size);
    var m1 := Steps(m, 4);
    FindItself(m1, size);
    var m2 := Steps(m1, 4);
    ComputeBase(m2, size);
    var m3 := Steps(m2, 4);
    ComputeAlias(m3, size);
    var m4 := Steps(m3, 4);
    GuardExceptions(m4, size);
    var m5 := Steps(m4, 7);
    ReadParameters(m5, size);
    StepsAdd(m, 4, 22);
    StepsAdd(m1, 4, 18);
    StepsAdd(m2, 4, 14);
    StepsAdd(m3, 4, 10);
    StepsAdd(m4, 7, 3);
  }

  /** After the checks: on to the copy, or to the dead end. */
  lemma Checked(m: Mips, size: u32) returns (n: nat)
    requires Ready(m, size)
    ensures var e := Steps(m, n);
            && Prepared(e, m.ram, size)
            && if 0 < size <= MAX_SIZE then At(e, 0x28, LOAD + 0xA4, size) else At(e, 0x45, BAD + 4, size)
  {
    hide Steps, HasCode;
    Prepare(m, size);
    var m1 := Steps(m, 26);
    NotTooLow(m1, size);
    var m2 := Steps(m1, 4);
    NotTooHigh(m2, size);
    var m3 := Steps(m2, 4);
    NotEmpty(m3, size);
    var m4 := Steps(m3, 2);
    StepsAdd(m, 26, 10);
    StepsAdd(m1, 4, 6);
    StepsAdd(m2, 4, 2);
    n := 36;
    if size != 0 {
      NotTooLong(m4, size);
      StepsAdd(m, 36, 4);
      n := 40;
    }
  }

  // ---------------------------------------------------------------- the dead end

  ghost predicate Spinning(m: Mips, ram: seq<u8>, size: u32) {
    m.ram == ram && (At(m, 0x45, BAD + 4, size) || At(m, 0x46, BAD, size))
  }

  lemma SpinBranch(m: Mips, size: u32)
    requires At(m, 0x45, BAD + 4, size)
    ensures Step(m) == m.(pc := BAD + 4, npc := BAD)
  {
    hide Step, HasCode, Decode;
    Fetch(m, 0x45, BAD + 4, size);
  }

  lemma SpinStep(m: Mips, ram: seq<u8>, size: u32)
    requires Spinning(m, ram, size)
    ensures Shape(m) && Spinning(Step(m), ram, size)
  {
    hide Step, HasCode, Execute, Listing, Decode;
    if At(m, 0x45, BAD + 4, size) {
      SpinBranch(m, size);
    } else {
      QuietEnd();
      Rest(m, 0x46, BAD, size);
    }
  }

  lemma QuietEnd()
    ensures Listing(0x46) == Quiet
  {
  }

  lemma {:induction false} SpinsForever(m: Mips, ram: seq<u8>, size: u32, n: nat)
    requires Spinning(m, ram, size)
    ensures Shape(m) && Spinning(Steps(m, n), ram, size)
    decreases n
  {
    hide Spinning, Step;
    SpinStep(m, ram, size);
    if n > 0 {
      SpinsForever(Step(m), ram, size, n - 1);
    }
  }

  /** An empty or oversized firmware: the trampoline reaches its dead end without a store and
      stays there. */
  lemma BadSizesSpin(m: Mips, size: u32) returns (n: nat)
    requires Ready(m, size) && !(0 < size <= MAX_SIZE)
    ensures forall k: nat | k >= n :: Spinning(Steps(m, k), m.ram, size)
  {
    hide Steps, HasCode;
    n := Checked(m, size);
    var e := Steps(m, n);
    assert Spinning(e, m.ram, size);
    hide Spinning;
    forall k: nat | k >= n
      ensures Spinning(Steps(m, k), m.ram, size)
    {
      StepsAdd(m, n, k - n);
      SpinsForever(e, m.ram, size, k - n);
    }
  }

  // ---------------------------------------------------------------- the copy

  /** The size rounded up to whole words. */
  function Rounded(size: u32): nat {
    ((size as int) + 3) / 4 * 4
  }

  /** The first `n` bytes of RAM are the firmware; everything above is as it was. */
  ghost predicate Copied(was: seq<u8>, ram: seq<u8>, n: nat) {
    && |was| == |ram| == RAM_SIZE && n <= 0x20_0000
    && (forall a | 0 <= a < n :: ram[a] == was[FIRMWARE_AT + a])
    && (forall a | n <= a < RAM_SIZE :: ram[a] == was[a])
  }

  /** At the top of the copy loop after `done` bytes. */
  ghost predicate AtLoop(m: Mips, was: seq<u8>, done: nat, size: u32) {
    && At(m, 0x30, LOAD + 0xC4, size) && done % 4 == 0 && done < Rounded(size) <= MAX_SIZE
    && Copied(was, m.ram, done) && m.status % 2 == 0 && m.except == LOAD + 0x10C
    && m.r[T5] == 0x4880_4200 + done && m.r[T4] == ENTRY + done && m.r[T3] == Rounded(size) - done
    && m.r[T7] == ENTRY && m.r[T8] == Rounded(size) && m.r[S0] == ENTRY
  }

  ghost predicate AfterLoop(m: Mips, was: seq<u8>, size: u32) {
    && At(m, 0x37, LOAD + 0xE0, size) && Copied(was, m.ram, Rounded(size)) && m.status % 2 == 0
        && m.except == LOAD + 0x10C
    && m.r[T7] == ENTRY && m.r[T8] == Rounded(size) && m.r[S0] == ENTRY
  }

  lemma RoundingUp(size: u32)
    requires 0 < size <= MAX_SIZE
    ensures 0 < size <= Rounded(size) <= MAX_SIZE && Rounded(size) % 4 == 0
    ensures Wrap32((size as int) + 3) == size + 3 && And(size + 3, 0xFFFF_FFFC) == Rounded(size)
  {
    hide And;
    ClearLowBits(size + 3);
  }

  lemma OrNothing(a: nat)
    ensures Or(a, 0) == a
  {
  }

  lemma SetPointers(m: Mips, size: u32)
    requires At(m, 0x28, LOAD + 0xA4, size) && m.r[S0] == ENTRY
    ensures var e := Steps(m, 2);
            At(e, 0x2A, LOAD + 0xAC, size) && e == Put(Put(m, T4, ENTRY), T7, ENTRY)
  {
    hide Step, Steps, HasCode, And, Or, Execute, Decode, Index, Word, WordAt, Tramp;
    OrNothing(ENTRY);
    Alu(m, 0x28, ENTRY, size);
    Alu(Step(m), 0x29, ENTRY, size);
    StepsFour(m);
  }

  lemma AddThree(m: Mips, size: u32)
    requires At(m, 0x2A, LOAD + 0xAC, size) && m.r[T3] == size && 0 < size <= MAX_SIZE
    ensures var e := Steps(m, 2);
            At(e, 0x2C, LOAD + 0xB4, size) && e == Put(Put(m, T3, size + 3), T6, 0xFFFF_FFFC)
  {
    hide Step, Steps, HasCode, And, Or, Execute, Decode, Index, Word, WordAt, Tramp, Rounded;
    RoundingUp(size);
    Alu(m, 0x2A, size + 3, size);
    AluWraps(Step(m), 0x2B, 0xFFFF_FFFC, size);
    StepsFour(m);
  }

  lemma ClearTwoBits(m: Mips, size: u32)
    requires At(m, 0x2C, LOAD + 0xB4, size) && m.r[T3] == size + 3 && m.r[T6] == 0xFFFF_FFFC && 0 < size <= MAX_SIZE
    ensures var e := Steps(m, 2); var n := Rounded(size);
            n <= MAX_SIZE && At(e, 0x2E, LOAD + 0xBC, size) && e == Put(Put(m, T3, n), T8, n)
  {
    hide Step, Steps, HasCode, And, Or, Execute, Decode, Index, Word, WordAt, Tramp, Rounded;
    RoundingUp(size);
    OrNothing(Rounded(size));
    Alu(m, 0x2C, Rounded(size), size);
    Alu(Step(m), 0x2D, Rounded(size), size);
    StepsFour(m);
  }

  lemma RoundCount(m: Mips, size: u32)
    requires At(m, 0x2A, LOAD + 0xAC, size) && m.r[T3] == size && 0 < size <= MAX_SIZE
    ensures var e := Steps(m, 4);
            && At(e, 0x2E, LOAD + 0xBC, size) && e.r[T3] == e.r[T8] == Rounded(size)
            && e == m.(pc := e.pc, npc := e.npc, r := e.r) && e.r[T4] == m.r[T4] && e.r[T5] == m.r[T5]
                && e.r[T7] == m.r[T7] && e.r[S0] == m.r[S0]
  {
    hide Steps, HasCode, Rounded;
    AddThree(m, size);
    ClearTwoBits(Steps(m, 2), size);
    StepsAdd(m, 2, 2);
  }

  lemma PassZeroTest(m: Mips, size: u32)
    requires At(m, 0x2E, LOAD + 0xBC, size) && m.r[T3] == Rounded(size) > 0
    ensures var e := Steps(m, 2); At(e, 0x30, LOAD + 0xC4, size) && e == m.(pc := LOAD + 0xC0, npc := LOAD + 0xC4)
  {
    hide Step, Steps, HasCode, And, Or, Execute, Decode, Index, Word, WordAt, Tramp, Rounded;
    Branch(m, 0x2E, 0x37, false, size);
    StepsFour(m);
  }

  lemma NothingCopied(was: seq<u8>)
    requires |was| == RAM_SIZE
    ensures Copied(was, was, 0)
  {
  }

  lemma EnterLoop(m: Mips, was: seq<u8>, size: u32)
    requires At(m, 0x28, LOAD + 0xA4, size) && Prepared(m, was, size) && 0 < size <= MAX_SIZE
    ensures AtLoop(Steps(m, 8), was, 0, size)
  {
    hide Steps, HasCode, Rounded, And, Copied;
    RoundingUp(size);
    NothingCopied(was);
    SetPointers(m, size);
    var m1 := Steps(m, 2);
    RoundCount(m1, size);
    var m2 := Steps(m1, 4);
    PassZeroTest(m2, size);
    StepsAdd(m, 2, 6);
    StepsAdd(m1, 4, 2);
  }

  lemma CopyWord(was: seq<u8>, ram: seq<u8>, done: nat, w: u32)
    requires Copied(was, ram, done) && done + 4 <= MAX_SIZE && w == Word(ram, FIRMWARE_AT + done)
    ensures Copied(was, WithWord(ram, done, w), done + 4)
  {
    var at := FIRMWARE_AT + done;
    LE32OfWord(ram, at);
    assert LE32(w) == ram[at..at + 4];
    assert ram[at] == was[at] && ram[at + 1] == was[at + 1] && ram[at + 2] == was[at + 2] && ram[at + 3] == was[at + 3];
  }

  lemma StoredCodeStays(ram: seq<u8>, x: nat, w: u32, size: u32)
    requires |ram| == RAM_SIZE && HasCode(ram, size) && x + 4 <= MAX_SIZE
    ensures HasCode(WithWord(ram, x, w), size)
  {
    hide Tramp;
    forall k | 0 <= k < CODE_WORDS
      ensures HasWord(WithWord(ram, x, w), k, size)
    {
      assert HasWord(ram, k, size);
    }
  }

  lemma PointersAreWords(x: nat)
    requires x % 4 == 0 && x < MAX_SIZE
    ensures Index(0x4880_4200 + x) == FIRMWARE_AT + x && WordAt(0x4880_4200 + x)
    ensures Index(ENTRY + x) == x && WordAt(ENTRY + x)
  {
  }

  lemma LoadWord(m: Mips, was: seq<u8>, done: nat, size: u32)
    requires AtLoop(m, was, done, size)
    ensures FIRMWARE_AT + done + 4 <= RAM_SIZE && Step(m) == Put(m, T6, Word(m.ram, FIRMWARE_AT + done))
    ensures At(Step(m), 0x31, LOAD + 0xC8, size)
  {
    hide Step, HasCode, Copied, Index, WordAt, Word;
    PointersAreWords(done);
    assert Address(m, T5, 0) == m.r[T5];
    ReadWord(m, 0x30, T6, T5, 0, FIRMWARE_AT + done, size);
  }

  lemma ExecuteSw(m: Mips, rt: nat, base: nat, off: nat, x: nat)
    requires Shape(m) && rt < 32 && base < 32 && m.npc < 0xFFFF_FFFC
    requires Index(Address(m, base, off)) == x && WordAt(Address(m, base, off))
    ensures x + 4 <= RAM_SIZE && Execute(m, Sw(rt, base, off))
            == m.(pc := m.npc, npc := m.npc + 4, ram := WithWord(m.ram, x, m.r[rt]))
  {
    hide Index, WithWord, Address;
  }

  lemma StoreIt(m: Mips, x: nat, size: u32)
    requires At(m, 0x31, LOAD + 0xC8, size) && m.r[T4] == ENTRY + x && x % 4 == 0 && x + 4 <= MAX_SIZE
    ensures Step(m) == m.(pc := LOAD + 0xC8, npc := LOAD + 0xCC, ram := WithWord(m.ram, x, m.r[T6]))
            && At(Step(m), 0x32, LOAD + 0xCC, size)
  {
    hide Step, HasCode, Index, WordAt, WithWord, Execute;
    Fetch(m, 0x31, LOAD + 0xC8, size);
    PointersAreWords(x);
    StoredCodeStays(m.ram, x, m.r[T6], size);
    assert Address(m, T4, 0) == m.r[T4];
    ExecuteSw(m, T6, T4, 0, x);
  }

  lemma AdvancePointers(m: Mips, done: nat, size: u32)
    requires At(m, 0x32, LOAD + 0xCC, size) && done <= MAX_SIZE
    requires m.r[T5] == 0x4880_4200 + done && m.r[T4] == ENTRY + done
    ensures var e := Step(Step(m));
            At(e, 0x34, LOAD + 0xD4, size) && e == Put(Put(m, T5, 0x4880_4200 + done + 4), T4, ENTRY + done + 4)
  {
    hide Step, Steps, HasCode, And, Or, Execute, Decode, Index, Word, WordAt, Tramp, HasWord;
    Alu(m, 0x32, 0x4880_4200 + done + 4, size);
    Alu(Step(m), 0x33, ENTRY + done + 4, size);
  }

  lemma Advance3(m: Mips, done: nat, size: u32)
    requires At(m, 0x32, LOAD + 0xCC, size) && done % 4 == 0 && done + 4 <= Rounded(size) <= MAX_SIZE
    requires m.r[T5] == 0x4880_4200 + done && m.r[T4] == ENTRY + done && m.r[T3] == Rounded(size) - done
    ensures var e := Steps(m, 3);
            At(e, 0x35, LOAD + 0xD8, size)
            && e == Put(Put(Put(m, T5, 0x4880_4200 + done + 4), T4, ENTRY + done + 4), T3, Rounded(size) - done - 4)
  {
    hide Step, Steps, HasCode, And, Or, Execute, Decode, Index, Word, WordAt, Tramp, Rounded;
    AdvancePointers(m, done, size);
    Alu(Step(Step(m)), 0x34, Rounded(size) - done - 4, size);
    StepsFour(m);
  }

  /** In the middle of a round: the word is stored, the pointers are not yet moved. */
  ghost predicate MidRound(m: Mips, was: seq<u8>, done: nat, size: u32) {
    && At(m, 0x32, LOAD + 0xCC, size) && done % 4 == 0 && done < Rounded(size) <= MAX_SIZE
    && Copied(was, m.ram, done + 4) && m.status % 2 == 0 && m.except == LOAD + 0x10C
    && m.r[T5] == 0x4880_4200 + done && m.r[T4] == ENTRY + done && m.r[T3] == Rounded(size) - done
    && m.r[T7] == ENTRY && m.r[T8] == Rounded(size) && m.r[S0] == ENTRY
  }

  lemma WordsFit(done: nat, size: u32)
    requires done % 4 == 0 && done < Rounded(size)
    ensures done + 4 <= Rounded(size)
  {
  }

  lemma FirstHalf(m: Mips, was: seq<u8>, done: nat, size: u32)
    requires AtLoop(m, was, done, size)
    ensures MidRound(Steps(m, 2), was, done, size)
  {
    hide Steps, Step, HasCode, Copied, WithWord, Word, Rounded;
    LoadWord(m, was, done, size);
    WordsFit(done, size);
    var m1 := Step(m);
    CopyWord(was, m.ram, done, m1.r[T6]);
    StoreIt(m1, done, size);
    StepsFour(m);
  }

  lemma SecondHalf(m: Mips, was: seq<u8>, done: nat, size: u32)
    requires MidRound(m, was, done, size)
    ensures var e := Steps(m, 5);
            if done + 4 < Rounded(size) then AtLoop(e, was, done + 4, size) else AfterLoop(e, was, size)
  {
    hide Steps, Step, HasCode, Copied, Rounded;
    WordsFit(done, size);
    Advance3(m, done, size);
    var m3 := Steps(m, 3);
    Branch(m3, 0x35, 0x30, done + 4 < Rounded(size), size);
    StepsFour(m3);
    StepsAdd(m, 3, 2);
  }

  lemma AtLoopMeans(m: Mips, was: seq<u8>, done: nat, size: u32)
    requires AtLoop(m, was, done, size)
    ensures Shape(m) && done < Rounded(size)
  {
  }

  /** One round of the loop copies one word. */
  lemma LoopRound(m: Mips, was: seq<u8>, done: nat, size: u32)
    requires AtLoop(m, was, done, size)
    ensures Shape(m)
    ensures var e := Steps(m, 7);
            if done + 4 < Rounded(size) then AtLoop(e, was, done + 4, size) else AfterLoop(e, was, size)
  {
    hide AtLoop, AfterLoop, MidRound, Steps, Rounded;
    AtLoopMeans(m, was, done, size);
    FirstHalf(m, was, done, size);
    SecondHalf(Steps(m, 2), was, done, size);
    StepsAdd(m, 2, 5);
  }

  lemma {:induction false} LoopRuns(m: Mips, was: seq<u8>, done: nat, size: u32) returns (n: nat)
    requires AtLoop(m, was, done, size)
    ensures AfterLoop(Steps(m, n), was, size)
    decreases Rounded(size) - done
  {
    LoopRound(m, was, done, size);
    if done + 4 < Rounded(size) {
      n := LoopRuns(Steps(m, 7), was, done + 4, size);
      StepsAdd(m, 7, n);
      n := 7 + n;
    } else {
      n := 7;
    }
  }

  // ---------------------------------------------------------------- the cache flush

  /** Flushing from `at` on; RAM and the jump target are settled. */
  ghost predicate Flushing(m: Mips, was: seq<u8>, at: nat, size: u32) {
    && At(m, 0x3A, LOAD + 0xEC, size) && Copied(was, m.ram, Rounded(size)) && m.status % 2 == 0
        && m.except == LOAD + 0x10C
    && at < Rounded(size) <= MAX_SIZE && m.r[T7] == ENTRY + at && m.r[T9] == ENTRY + Rounded(size) && m.r[S0] == ENTRY
  }

  ghost predicate Flushed(m: Mips, was: seq<u8>, size: u32) {
    && At(m, 0x40, LOAD + 0x104, size) && Copied(was, m.ram, Rounded(size)) && m.status % 2 == 0
        && m.except == LOAD + 0x10C
    && m.r[S0] == ENTRY
  }

  lemma EnterFlush(m: Mips, was: seq<u8>, size: u32)
    requires AfterLoop(m, was, size) && 0 < size <= MAX_SIZE
    ensures Flushing(Steps(m, 3), was, 0, size)
  {
    hide Step, Steps, HasCode, And, Or, Execute, Decode, Index, Word, WordAt, Tramp, Copied, Rounded;
    RoundingUp(size);
    Alu(m, 0x37, ENTRY + Rounded(size), size);
    Branch(Step(m), 0x38, 0x40, false, size);
    StepsFour(m);
  }

  lemma NextLine(m: Mips, at: nat, end: nat, size: u32)
    requires At(m, 0x3C, LOAD + 0xF4, size) && at < end <= MAX_SIZE && m.r[T7] == ENTRY + at && m.r[T9] == ENTRY + end
    ensures var e := Steps(m, 2);
            At(e, 0x3E, LOAD + 0xFC, size) && e == Put(Put(m, T7, ENTRY + at + 64), T6, if at + 64 < end then 1 else 0)
  {
    hide Step, Steps, HasCode, And, Or, Execute, Decode, Index, Word, WordAt, Tramp, Copied, Rounded;
    Alu(m, 0x3C, ENTRY + at + 64, size);
    Alu(Step(m), 0x3D, if at + 64 < end then 1 else 0, size);
    StepsFour(m);
  }

  lemma LineBranch(m: Mips, more: bool, size: u32)
    requires At(m, 0x3E, LOAD + 0xFC, size) && m.r[T6] == if more then 1 else 0
    ensures var e := Steps(m, 2);
            if more then At(e, 0x3A, LOAD + 0xEC, size) && e == m.(pc := LOAD + 0xE8, npc := LOAD + 0xEC)
            else At(e, 0x40, LOAD + 0x104, size) && e == m.(pc := LOAD + 0x100, npc := LOAD + 0x104)
  {
    hide Step, Steps, HasCode, And, Or, Execute, Decode, Index, Word, WordAt, Tramp, Copied, Rounded;
    Branch(m, 0x3E, 0x3A, more, size);
    StepsFour(m);
  }

  lemma FlushRound(m: Mips, was: seq<u8>, at: nat, size: u32)
    requires Flushing(m, was, at, size)
    ensures var e := Steps(m, 6);
            if at + 64 < Rounded(size) then Flushing(e, was, at + 64, size) else Flushed(e, was, size)
  {
    hide Step, Steps, HasCode, Copied, Rounded;
    RestTwo(m, 0x3A, size);
    var m1 := Steps(m, 2);
    NextLine(m1, at, Rounded(size), size);
    LineBranch(Steps(m1, 2), at + 64 < Rounded(size), size);
    StepsAdd(m, 2, 4);
    StepsAdd(m1, 2, 2);
  }

  lemma FlushingMeans(m: Mips, was: seq<u8>, at: nat, size: u32)
    requires Flushing(m, was, at, size)
    ensures Shape(m) && at < Rounded(size)
  {
  }

  lemma {:induction false} FlushRuns(m: Mips, was: seq<u8>, at: nat, size: u32) returns (n: nat)
    requires Flushing(m, was, at, size)
    ensures Shape(m) && Flushed(Steps(m, n), was, size)
    decreases Rounded(size) - at
  {
    hide Steps, Flushing, Flushed, Rounded;
    FlushingMeans(m, was, at, size);
    FlushRound(m, was, at, size);
    if at + 64 < Rounded(size) {
      n := FlushRuns(Steps(m, 6), was, at + 64, size);
      StepsAdd(m, 6, n);
      n := 6 + n;
    } else {
      n := 6;
    }
  }

  lemma JumpRegister(m: Mips, size: u32)
    requires At(m, 0x41, LOAD + 0x108, size) && m.r[S0] == ENTRY
    ensures Step(m) == m.(pc := LOAD + 0x108, npc := ENTRY)
  {
    hide Step, HasCode;
    Fetch(m, 0x41, LOAD + 0x108, size);
  }

  lemma EnterLoader(m: Mips, was: seq<u8>, size: u32)
    requires Flushed(m, was, size)
    ensures var e := Steps(m, 3); Installed(e, was, size)
  {
    hide Step, Steps, HasCode, And, Or, Execute, Decode, Index, Word, WordAt, Tramp, Copied, Rounded;
    Rest(m, 0x40, LOAD + 0x104, size);
    var m1 := Step(m);
    JumpRegister(m1, size);
    Rest(Step(m1), 0x42, ENTRY, size);
    StepsFour(m);
  }

  // ---------------------------------------------------------------- the theorem

  /** In the new loader with interrupts masked and the exception vector outside the copied
      region; the copy is whole words, everything above it is untouched. */
  ghost predicate Installed(e: Mips, was: seq<u8>, size: u32) {
    Shape(e) && e.ok && e.pc == ENTRY && Copied(was, e.ram, Rounded(size)) && e.status % 2 == 0
        && e.except == LOAD + 0x10C
  }

  /** For every firmware of 1 to 0x100000 bytes, from any registers and surrounding RAM, the
      trampoline ends at the loader's entry with the firmware in the loader's place. */
  lemma FirmwareIsInstalled(m: Mips, size: u32) returns (n: nat)
    requires Ready(m, size) && 0 < size <= MAX_SIZE
    ensures var e := Steps(m, n);
            Installed(e, m.ram, size) && e.ram[..size] == m.ram[FIRMWARE_AT..FIRMWARE_AT + size]
  {
    hide Steps, Flushing, Flushed, AtLoop, AfterLoop, Prepared, HasCode, Copied, Installed;
    var a := Checked(m, size);
    var m1 := Steps(m, a);
    EnterLoop(m1, m.ram, size);
    var m2 := Steps(m1, 8);
    var b := LoopRuns(m2, m.ram, 0, size);
    var m3 := Steps(m2, b);
    EnterFlush(m3, m.ram, size);
    var m4 := Steps(m3, 3);
    var c := FlushRuns(m4, m.ram, 0, size);
    var m5 := Steps(m4, c);
    EnterLoader(m5, m.ram, size);
    StepsAdd(m, a, 8);
    StepsAdd(m, a + 8, b);
    StepsAdd(m, a + 8 + b, 3);
    StepsAdd(m, a + 8 + b + 3, c);
    StepsAdd(m, a + 8 + b + 3 + c, 3);
    n := a + 8 + b + 3 + c + 3;
    InstalledIsFirmware(Steps(m, n), m.ram, size);
  }

  lemma InstalledIsFirmware(e: Mips, was: seq<u8>, size: u32)
    requires Installed(e, was, size) && 0 < size <= MAX_SIZE
    ensures |was| == RAM_SIZE && e.ram[..size] == was[FIRMWARE_AT..FIRMWARE_AT + size]
  {
    RoundingUp(size);
    var here, there := e.ram[..size], was[FIRMWARE_AT..FIRMWARE_AT + size];
    forall j | 0 <= j < size
      ensures here[j] == there[j]
    {
      assert here[j] == e.ram[j] == was[FIRMWARE_AT + j];
    }
  }
}
