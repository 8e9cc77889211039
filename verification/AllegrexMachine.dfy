/**
 As much of the Allegrex (a little-endian MIPS) as the PSP firmware trampoline uses:
 instructions fetched from RAM, branch delay slots, three coprocessor registers.
 */
module AllegrexMachine {
  import opened Bytes

  const RAM_SIZE := 0x200_0000       // 32 MB at physical 0x08000000
  const RAM_BASE := 0x0800_0000
  const ENTRY: u32 := 0x0800_0000    // where the new loader takes over

  // ---------------------------------------------------------------- bitwise operations

  function And(a: nat, b: nat): (r: nat)
    ensures r <= a && r <= b
  {
    if a == 0 || b == 0 then 0 else (a % 2) * (b % 2) + 2 * And(a / 2, b / 2)
  }

  function Or(a: nat, b: nat): (r: nat)
    ensures r <= a + b
  {
    if a == 0 then b else if b == 0 then a else (if a % 2 == 1 || b % 2 == 1 then 1 else 0) + 2 * Or(a / 2, b / 2)
  }

  function Pow2(k: nat): (p: nat)
    ensures p > 0
  {
    if k == 0 then 1 else 2 * Pow2(k - 1)
  }

  lemma AndOdd(a: nat, m: nat)
    ensures And(a, 2 * m + 1) == a % 2 + 2 * And(a / 2, m)
  {
    assert (2 * m + 1) / 2 == m && (2 * m + 1) % 2 == 1;
  }

  /** Masking with all bits keeps everything. */
  lemma {:induction false} AndOnes(a: nat, n: nat)
    requires a < Pow2(n)
    ensures And(a, Pow2(n) - 1) == a
    decreases n
  {
    hide And;
    if n > 0 {
      AndOnes(a / 2, n - 1);
      AndOdd(a, Pow2(n - 1) - 1);
    }
  }

  lemma Powers()
    ensures Pow2(16) == 0x1_0000 && Pow2(29) == 0x2000_0000 && Pow2(30) == 0x4000_0000 && Pow2(31) == 0x8000_0000
  {
    assert Pow2(10) == 0x400;
    assert Pow2(20) == 0x10_0000;
  }

  lemma OrStep(high: nat, low: nat)
    ensures Or(2 * high, low) == low % 2 + 2 * Or(high, low / 2)
  {
    assert 2 * high / 2 == high && 2 * high % 2 == 0;
  }

  lemma OrStepBack(low: nat, high: nat)
    ensures Or(low, 2 * high) == low % 2 + 2 * Or(low / 2, high)
  {
    assert 2 * high / 2 == high && 2 * high % 2 == 0;
  }

  /** Joining bits that do not meet is adding. */
  lemma {:induction false} OrDisjoint(c: nat, n: nat, low: nat)
    requires low < Pow2(n)
    ensures Or(c * Pow2(n), low) == c * Pow2(n) + low && Or(low, c * Pow2(n)) == c * Pow2(n) + low
    decreases n
  {
    if n == 0 {
      assert Pow2(0) == 1 && low == 0;
    } else {
      DoubledPower(c, n);
      hide Or, Pow2;
      OrDisjoint(c, n - 1, low / 2);
      OrStep(c * Pow2(n - 1), low);
      OrStepBack(low, c * Pow2(n - 1));
    }
  }

  lemma DoubledPower(c: nat, n: nat)
    requires n > 0
    ensures Pow2(n) == 2 * Pow2(n - 1) && c * Pow2(n) == 2 * (c * Pow2(n - 1))
  {
    assert c * (2 * Pow2(n - 1)) == 2 * (c * Pow2(n - 1));
  }

  /** Masking with -2 clears the lowest bit, with -4 the two lowest. */
  lemma ClearLowBits(a: u32)
    ensures And(a, 0xFFFF_FFFE) == a - a % 2 && And(a, 0xFFFF_FFFC) == a - a % 4
  {
    Powers();
    AndOnes(a / 2, 31);
    AndOnes(a / 4, 30);
    assert a / 2 / 2 == a / 4;
    assert And(a, 0xFFFF_FFFE) == 2 * And(a / 2, 0x7FFF_FFFF);
    assert And(a / 2, 0x7FFF_FFFE) == 2 * And(a / 2 / 2, 0x3FFF_FFFF);
    assert And(a, 0xFFFF_FFFC) == 2 * And(a / 2, 0x7FFF_FFFE);
  }

  // ---------------------------------------------------------------- the machine

  datatype Mips = Mips(pc: u32, npc: u32, r: seq<u32>, status: u32, except: u32, control9: u32, ram: seq<u8>, ok: bool)

  predicate Shape(m: Mips) {
    |m.r| == 32 && m.r[0] == 0 && |m.ram| == RAM_SIZE
  }

  /** The RAM index of an address, cached or through the uncached alias, or -1. */
  function Index(a: u32): (i: int)
    ensures -1 <= i < RAM_SIZE
  {
    if (a < 0x2000_0000 || 0x4000_0000 <= a < 0x6000_0000) && RAM_BASE <= a % 0x2000_0000 < RAM_BASE + RAM_SIZE
    then a % 0x2000_0000 - RAM_BASE else -1
  }

  datatype Instr =
    | Mfc0(rt: nat, rd: nat)
    | Mtc0(rt: nat, rd: nat)
    | Ctc0(rt: nat, rd: nat)
    | Addiu(rt: nat, rs: nat, imm: nat)
    | Ori(rt: nat, rs: nat, imm: nat)
    | Lui(rt: nat, imm: nat)
    | AndR(rd: nat, rs: nat, rt: nat)
    | OrR(rd: nat, rs: nat, rt: nat)
    | Addu(rd: nat, rs: nat, rt: nat)
    | Subu(rd: nat, rs: nat, rt: nat)
    | Sltu(rd: nat, rs: nat, rt: nat)
    | Lw(rt: nat, base: nat, off: nat)
    | Sw(rt: nat, base: nat, off: nat)
    | Beq(rs: nat, rt: nat, off: nat)
    | Bne(rs: nat, rt: nat, off: nat)
    | Bal(off: nat)
    | Jr(rs: nat)
    | Quiet        // nop, sync, cache: nothing this model records
    | Other

  function Decode(w: u32): Instr {
    var op, rs, rt, rd, f, imm := w / 0x400_0000, w / 0x20_0000 % 32, w / 0x1_0000 % 32, w / 0x800 % 32, w % 64,
        w % 0x1_0000;
    if op == 0 then
      (if w == 0 || w == 0x0F then Quiet
       else if w / 0x40 % 32 != 0 then Other
       else if f == 0x08 && rt == 0 && rd == 0 then Jr(rs)
       else if f == 0x21 then Addu(rd, rs, rt)
       else if f == 0x23 then Subu(rd, rs, rt)
       else if f == 0x24 then AndR(rd, rs, rt)
       else if f == 0x25 then OrR(rd, rs, rt)
       else if f == 0x2B then Sltu(rd, rs, rt)
       else Other)
    else if op == 0x01 then (if rs == 0 && rt == 0x11 then Bal(imm) else Other)
    else if op == 0x04 then Beq(rs, rt, imm)
    else if op == 0x05 then Bne(rs, rt, imm)
    else if op == 0x09 then Addiu(rt, rs, imm)
    else if op == 0x0D then Ori(rt, rs, imm)
    else if op == 0x0F then Lui(rt, imm)
    else if op == 0x10 then
      (if w % 0x800 != 0 then Other else if rs == 0 then Mfc0(rt, rd) else if rs == 4 then Mtc0(rt, rd)
          else if rs == 6 then Ctc0(rt, rd) else Other)
    else if op == 0x23 then Lw(rt, rs, imm)
    else if op == 0x2B then Sw(rt, rs, imm)
    else if op == 0x2F then Quiet
    else Other
  }

  function IType(op: nat, rs: nat, rt: nat, imm: nat): nat {
    op * 0x400_0000 + rs * 0x20_0000 + rt * 0x1_0000 + imm
  }

  function RType(rs: nat, rt: nat, rd: nat, f: nat): nat {
    rs * 0x20_0000 + rt * 0x1_0000 + rd * 0x800 + f
  }

  lemma ITypeFields(op: nat, rs: nat, rt: nat, imm: nat)
    requires op < 64 && rs < 32 && rt < 32 && imm < 0x1_0000
    ensures var w := IType(op, rs, rt, imm);
            && w < 0x1_0000_0000 && w / 0x400_0000 == op && w / 0x20_0000 % 32 == rs && w / 0x1_0000 % 32 == rt
                && w % 0x1_0000 == imm
  {
    var w := IType(op, rs, rt, imm);
    assert w / 0x1_0000 == op * 0x400 + rs * 0x20 + rt;
    assert w / 0x20_0000 == op * 0x20 + rs;
  }

  lemma RTypeFields(rs: nat, rt: nat, rd: nat, f: nat)
    requires rs < 32 && rt < 32 && rd < 32 && f < 64
    ensures var w := RType(rs, rt, rd, f);
            && w < 0x400_0000 && w / 0x400_0000 == 0 && w / 0x20_0000 % 32 == rs && w / 0x1_0000 % 32 == rt
                && w / 0x800 % 32 == rd
            && w % 64 == f && w / 0x40 % 32 == 0
  {
    var w := RType(rs, rt, rd, f);
    assert w / 0x40 == rs * 0x8000 + rt * 0x400 + rd * 0x20;
    assert w / 0x800 == rs * 0x400 + rt * 0x20 + rd;
    assert w / 0x1_0000 == rs * 0x20 + rt;
  }

  /** The assembler's side of Decode; cop0 moves carry their register in the immediate. */
  function Encode(i: Instr): nat {
    match i
    case Mfc0(rt, rd) => IType(0x10, 0, rt, rd * 0x800)
    case Mtc0(rt, rd) => IType(0x10, 4, rt, rd * 0x800)
    case Ctc0(rt, rd) => IType(0x10, 6, rt, rd * 0x800)
    case Addiu(rt, rs, imm) => IType(0x09, rs, rt, imm)
    case Ori(rt, rs, imm) => IType(0x0D, rs, rt, imm)
    case Lui(rt, imm) => IType(0x0F, 0, rt, imm)
    case AndR(rd, rs, rt) => RType(rs, rt, rd, 0x24)
    case OrR(rd, rs, rt) => RType(rs, rt, rd, 0x25)
    case Addu(rd, rs, rt) => RType(rs, rt, rd, 0x21)
    case Subu(rd, rs, rt) => RType(rs, rt, rd, 0x23)
    case Sltu(rd, rs, rt) => RType(rs, rt, rd, 0x2B)
    case Lw(rt, base, off) => IType(0x23, base, rt, off)
    case Sw(rt, base, off) => IType(0x2B, base, rt, off)
    case Beq(rs, rt, off) => IType(0x04, rs, rt, off)
    case Bne(rs, rt, off) => IType(0x05, rs, rt, off)
    case Bal(off) => IType(0x01, 0, 0x11, off)
    case Jr(rs) => RType(rs, 0, 0, 0x08)
    case _ => 0
  }

  predicate FieldsOk(i: Instr) {
    RegsOk(i) &&
    match i
    case Mfc0(_, rd) => rd < 32 case Mtc0(_, rd) => rd < 32 case Ctc0(_, rd) => rd < 32
    case Addiu(_, _, imm) => imm < 0x1_0000 case Ori(_, _, imm) => imm < 0x1_0000 case Lui(_, imm) => imm < 0x1_0000
    case Lw(_, _, off) => off < 0x1_0000 case Sw(_, _, off) => off < 0x1_0000
    case Beq(_, _, off) => off < 0x1_0000 case Bne(_, _, off) => off < 0x1_0000 case Bal(off) => off < 0x1_0000
    case Other => false
    case _ => true
  }

  lemma DecodeIType(op: nat, rs: nat, rt: nat, imm: nat)
    requires op in {0x01, 0x04, 0x05, 0x09, 0x0D, 0x0F, 0x23, 0x2B} && rs < 32 && rt < 32 && imm < 0x1_0000
    requires (op == 0x01 ==> rs == 0 && rt == 0x11)
    ensures IType(op, rs, rt, imm) < 0x1_0000_0000
    ensures Decode(IType(op, rs, rt, imm))
         == if op == 0x01 then Bal(imm) else if op == 0x04 then Beq(rs, rt, imm)
             else if op == 0x05 then Bne(rs, rt, imm)
            else if op == 0x09 then Addiu(rt, rs, imm) else if op == 0x0D then Ori(rt, rs, imm)
                else if op == 0x0F then Lui(rt, imm)
            else if op == 0x23 then Lw(rt, rs, imm) else Sw(rt, rs, imm)
  {
    hide IType;
    ITypeFields(op, rs, rt, imm);
  }

  lemma Cop0Fields(sub: nat, rt: nat, rd: nat)
    requires sub < 32 && rt < 32 && rd < 32
    ensures var w := IType(0x10, sub, rt, rd * 0x800); w % 0x800 == 0 && w / 0x800 % 32 == rd
  {
    var w := IType(0x10, sub, rt, rd * 0x800);
    assert w == 0x800 * (0x10 * 0x8000 + sub * 0x400 + rt * 0x20 + rd);
  }

  lemma DecodeCop0(sub: nat, rt: nat, rd: nat)
    requires sub in {0, 4, 6} && rt < 32 && rd < 32
    ensures IType(0x10, sub, rt, rd * 0x800) < 0x1_0000_0000
    ensures Decode(IType(0x10, sub, rt, rd * 0x800)) == if sub == 0 then Mfc0(rt, rd)
            else if sub == 4 then Mtc0(rt, rd) else Ctc0(rt, rd)
  {
    hide IType;
    ITypeFields(0x10, sub, rt, rd * 0x800);
    Cop0Fields(sub, rt, rd);
  }

  lemma DecodeRType(rs: nat, rt: nat, rd: nat, f: nat)
    requires rs < 32 && rt < 32 && rd < 32 && f in {0x08, 0x21, 0x23, 0x24, 0x25, 0x2B}
    requires f == 0x08 ==> rt == 0 && rd == 0
    ensures RType(rs, rt, rd, f) < 0x1_0000_0000
    ensures Decode(RType(rs, rt, rd, f))
         == if f == 0x08 then Jr(rs) else if f == 0x21 then Addu(rd, rs, rt) else if f == 0x23 then Subu(rd, rs, rt)
            else if f == 0x24 then AndR(rd, rs, rt) else if f == 0x25 then OrR(rd, rs, rt) else Sltu(rd, rs, rt)
  {
    RTypeFields(rs, rt, rd, f);
    assert RType(rs, rt, rd, f) != 0 && RType(rs, rt, rd, f) != 0x0F;
    hide RType;
  }

  /** Decoding undoes encoding. */
  lemma EncodeDecodes(i: Instr)
    requires FieldsOk(i)
    ensures Encode(i) < 0x1_0000_0000 && Decode(Encode(i)) == i
  {
    hide Decode, IType, RType;
    match i {
      case Mfc0(rt, rd) => DecodeCop0(0, rt, rd);
      case Mtc0(rt, rd) => DecodeCop0(4, rt, rd);
      case Ctc0(rt, rd) => DecodeCop0(6, rt, rd);
      case Addiu(rt, rs, imm) => DecodeIType(0x09, rs, rt, imm);
      case Ori(rt, rs, imm) => DecodeIType(0x0D, rs, rt, imm);
      case Lui(rt, imm) => DecodeIType(0x0F, 0, rt, imm);
      case AndR(rd, rs, rt) => DecodeRType(rs, rt, rd, 0x24);
      case OrR(rd, rs, rt) => DecodeRType(rs, rt, rd, 0x25);
      case Addu(rd, rs, rt) => DecodeRType(rs, rt, rd, 0x21);
      case Subu(rd, rs, rt) => DecodeRType(rs, rt, rd, 0x23);
      case Sltu(rd, rs, rt) => DecodeRType(rs, rt, rd, 0x2B);
      case Lw(rt, base, off) => DecodeIType(0x23, base, rt, off);
      case Sw(rt, base, off) => DecodeIType(0x2B, base, rt, off);
      case Beq(rs, rt, off) => DecodeIType(0x04, rs, rt, off);
      case Bne(rs, rt, off) => DecodeIType(0x05, rs, rt, off);
      case Bal(off) => DecodeIType(0x01, 0, 0x11, off);
      case Jr(rs) => DecodeRType(rs, 0, 0, 0x08);
      case _ => DecodeQuiet();
    }
  }

  lemma DecodeQuiet()
    ensures Decode(0) == Quiet && Decode(0x0F) == Quiet && Decode(0xBDFB_0000) == Quiet && Decode(0xBDE8_0000) == Quiet
  {
  }

  predicate RegsOk(i: Instr) {
    match i
    case Mfc0(rt, _) => rt < 32 case Mtc0(rt, _) => rt < 32 case Ctc0(rt, _) => rt < 32
    case Addiu(rt, rs, _) => rt < 32 && rs < 32 case Ori(rt, rs, _) => rt < 32 && rs < 32 case Lui(rt, _) => rt < 32
    case AndR(rd, rs, rt) => rd < 32 && rs < 32 && rt < 32 case OrR(rd, rs, rt) => rd < 32 && rs < 32 && rt < 32
    case Addu(rd, rs, rt) => rd < 32 && rs < 32 && rt < 32 case Subu(rd, rs, rt) => rd < 32 && rs < 32 && rt < 32
    case Sltu(rd, rs, rt) => rd < 32 && rs < 32 && rt < 32
    case Lw(rt, base, _) => rt < 32 && base < 32 case Sw(rt, base, _) => rt < 32 && base < 32
    case Beq(rs, rt, _) => rs < 32 && rt < 32 case Bne(rs, rt, _) => rs < 32 && rt < 32
    case Jr(rs) => rs < 32
    case _ => true
  }

  function Signed16(imm: nat): int {
    if imm < 0x8000 then imm else imm - 0x1_0000
  }

  function Fail(m: Mips): Mips {
    m.(ok := false)
  }

  /** On to `to` after the instruction in the delay slot. */
  function GoTo(m: Mips, to: u32): Mips {
    m.(pc := m.npc, npc := to)
  }

  function Advance(m: Mips): Mips {
    GoTo(m, Wrap32((m.npc as int) + 4))
  }

  /** Set a register; register 0 stays zero. */
  function Set(m: Mips, n: nat, v: int): (e: Mips)
    requires Shape(m) && n < 32
    ensures Shape(e)
  {
    Advance(if n == 0 then m else m.(r := m.r[n := Wrap32(v)]))
  }

  /** A branch target, relative to the delay slot. */
  function Target(m: Mips, off: nat): u32 {
    Wrap32((m.npc as int) + 4 * Signed16(off))
  }

  function WithWord(ram: seq<u8>, x: nat, w: u32): (r: seq<u8>)
    requires x + 4 <= |ram|
    ensures |r| == |ram|
  {
    ram[..x] + LE32(w) + ram[x + 4..]
  }

  function Address(m: Mips, base: nat, off: nat): u32
    requires Shape(m) && base < 32
  {
    Wrap32((m.r[base] as int) + Signed16(off))
  }

  predicate WordAt(a: u32) {
    Index(a) >= 0 && Index(a) + 4 <= RAM_SIZE && a % 4 == 0
  }

  function Execute(m: Mips, i: Instr): (e: Mips)
    requires Shape(m)
    ensures Shape(e)
  {
    if !RegsOk(i) then Fail(m) else
    match i
    case Mfc0(rt, rd) => if rd == 12 then Set(m, rt, m.status) else Fail(m)
    case Mtc0(rt, rd) =>
      if rd == 12 then Advance(m.(status := m.r[rt])) else if rd == 25 then Advance(m.(except := m.r[rt])) else Fail(m)
    case Ctc0(rt, rd) => if rd == 9 then Advance(m.(control9 := m.r[rt])) else Fail(m)
    case Addiu(rt, rs, imm) => Set(m, rt, (m.r[rs] as int) + Signed16(imm))
    case Ori(rt, rs, imm) => Set(m, rt, Or(m.r[rs], imm))
    case Lui(rt, imm) => Set(m, rt, imm * 0x1_0000)
    case AndR(rd, rs, rt) => Set(m, rd, And(m.r[rs], m.r[rt]))
    case OrR(rd, rs, rt) => Set(m, rd, Or(m.r[rs], m.r[rt]))
    case Addu(rd, rs, rt) => Set(m, rd, (m.r[rs] as int) + m.r[rt])
    case Subu(rd, rs, rt) => Set(m, rd, (m.r[rs] as int) - m.r[rt])
    case Sltu(rd, rs, rt) => Set(m, rd, if m.r[rs] < m.r[rt] then 1 else 0)
    case Lw(rt, base, off) => if WordAt(Address(m, base, off))
        then Set(m, rt, Word(m.ram, Index(Address(m, base, off)))) else Fail(m)
    case Sw(rt, base, off) =>
      if WordAt(Address(m, base, off))
          then Advance(m.(ram := WithWord(m.ram, Index(Address(m, base, off)), m.r[rt]))) else Fail(m)
    case Beq(rs, rt, off) => if m.r[rs] == m.r[rt] then GoTo(m, Target(m, off)) else Advance(m)
    case Bne(rs, rt, off) => if m.r[rs] != m.r[rt] then GoTo(m, Target(m, off)) else Advance(m)
    case Bal(off) => GoTo(m.(r := m.r[31 := Wrap32((m.npc as int) + 4)]), Target(m, off))
    case Jr(rs) => GoTo(m, m.r[rs])
    case Quiet => Advance(m)
    case Other => Fail(m)
  }

  /** Nothing further happens in this model once the loader has control or the machine has failed. */
  predicate Final(m: Mips) {
    !m.ok || m.pc == ENTRY
  }

  function Step(m: Mips): (e: Mips)
    requires Shape(m)
    ensures Shape(e)
  {
    if Final(m) then m
    else if !WordAt(m.pc) then Fail(m)
    else Execute(m, Decode(Word(m.ram, Index(m.pc))))
  }

  function Steps(m: Mips, n: nat): (e: Mips)
    requires Shape(m)
    ensures Shape(e)
    decreases n
  {
    if n == 0 then m else Steps(Step(m), n - 1)
  }

  lemma {:induction false} StepsAdd(m: Mips, a: nat, b: nat)
    requires Shape(m)
    ensures Steps(m, a + b) == Steps(Steps(m, a), b)
    decreases a
  {
    if a > 0 {
      StepsAdd(Step(m), a - 1, b);
    }
  }
}
