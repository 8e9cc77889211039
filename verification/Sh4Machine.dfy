/**
 As much of the SH-4 as the Dreamcast firmware trampoline uses: instructions fetched from
 RAM, two register banks, the T bit, the cache control register and one branch delay slot.
 */
module Sh4Machine {
  import opened Bytes

  const RAM_SIZE := 0x100_0000      // 16 MB at physical 0x0C000000
  const RAM_BASE := 0x0C00_0000
  const CCR := 0xFF00_001C
  const ENTRY := 0xAC00_4000        // where the new loader takes over

  /** `npc` is the instruction after the current one; `ok` is false after an instruction outside
      the subset or an access outside RAM. */
  datatype Sh4 = Sh4(pc: u32, npc: u32, r: seq<u32>, bank: seq<u32>, sr: u32, t: bool, ccr: u32, ram: seq<u8>, ok: bool)

  predicate Shape(m: Sh4) {
    |m.r| == 16 && |m.bank| == 8 && |m.ram| == RAM_SIZE
  }

  /** The RAM index of an address in the cached or uncached direct-mapped segments, or -1. */
  function Index(a: u32): (i: int)
    ensures -1 <= i < RAM_SIZE
  {
    if 0x8000_0000 <= a < 0xC000_0000
        && RAM_BASE <= a % 0x2000_0000 < RAM_BASE + RAM_SIZE then a % 0x2000_0000 - RAM_BASE else -1
  }

  function Half(ram: seq<u8>, i: nat): u32
    requires i + 2 <= |ram|
  {
    (ram[i] as int) + 0x100 * (ram[i + 1] as int)
  }

  datatype Instr =
    | MovLPc(n: nat, disp: nat)      // mov.l @(disp,PC),Rn
    | LdcSr(n: nat)                  // ldc Rn,SR
    | MovBInc(m: nat, n: nat)        // mov.b @Rm+,Rn
    | MovBStore(m: nat, n: nat)      // mov.b Rm,@Rn
    | MovLStore(m: nat, n: nat)      // mov.l Rm,@Rn
    | Mov(m: nat, n: nat)            // mov Rm,Rn
    | AddImm(imm: nat, n: nat)       // add #imm,Rn
    | Dt(n: nat)                     // dt Rn
    | Bf(disp: nat)                  // bf disp
    | Jmp(n: nat)                    // jmp @Rn
    | Nop
    | Other

  function Decode(w: u32): Instr {
    var op, n, m, low := w / 0x1000, w / 0x100 % 0x10, w / 0x10 % 0x10, w % 0x10;
    if op == 0xD then MovLPc(n, w % 0x100)
    else if op == 0x4 && w % 0x100 == 0x0E then LdcSr(n)
    else if op == 0x4 && w % 0x100 == 0x10 then Dt(n)
    else if op == 0x4 && w % 0x100 == 0x2B then Jmp(n)
    else if op == 0x6 && low == 4 then MovBInc(m, n)
    else if op == 0x6 && low == 3 then Mov(m, n)
    else if op == 0x2 && low == 0 then MovBStore(m, n)
    else if op == 0x2 && low == 2 then MovLStore(m, n)
    else if op == 0x7 then AddImm(w % 0x100, n)
    else if op == 0x8 && n == 0xB then Bf(w % 0x100)
    else if w == 0x0009 then Nop
    else Other
  }

  function SignExtend8(b: nat): int {
    if b < 0x80 then b else b - 0x100
  }

  function Fail(m: Sh4): Sh4 {
    m.(ok := false)
  }

  /** On to the next instruction. */
  function Advance(m: Sh4): Sh4 {
    m.(pc := m.npc, npc := Wrap32((m.npc as int) + 2))
  }

  function SetReg(m: Sh4, n: nat, v: int): (r: Sh4)
    requires Shape(m) && n < 16
    ensures Shape(r)
  {
    Advance(m.(r := m.r[n := Wrap32(v)]))
  }

  /** Writing SR: a change of RB exchanges R0-R7 with their other bank. */
  function WriteSr(m: Sh4, v: u32): (r: Sh4)
    requires Shape(m)
    ensures Shape(r)
  {
    var swap := HasBit(v, 0x2000_0000) != HasBit(m.sr, 0x2000_0000);
    Advance(m.(sr := v, t := HasBit(v, 1),
               r := if swap then m.bank + m.r[8..] else m.r, bank := if swap then m.r[..8] else m.bank))
  }

  function Execute(m: Sh4, i: Instr): (r: Sh4)
    requires Shape(m)
    ensures Shape(r)
  {
    match i
    case MovLPc(n, disp) =>
      var x := Index(Wrap32((m.pc as int) - m.pc % 4 + 4 + 4 * disp));
      if n >= 16 || x < 0 || x + 4 > RAM_SIZE then Fail(m) else SetReg(m, n, Word(m.ram, x))
    case LdcSr(n) => if n >= 16 then Fail(m) else WriteSr(m, m.r[n])
    case MovBInc(s, n) =>
      if s >= 16 || n >= 16 || Index(m.r[s]) < 0 then Fail(m)
      else SetReg(m.(r := m.r[s := Wrap32((m.r[s] as int) + 1)]), n, SignExtend8(m.ram[Index(m.r[s])]))
    case MovBStore(s, n) =>
      if s >= 16 || n >= 16 || Index(m.r[n]) < 0 then Fail(m)
      else Advance(m.(ram := m.ram[Index(m.r[n]) := m.r[s] % 0x100]))
    case MovLStore(s, n) =>
      if s >= 16 || n >= 16 || m.r[n] != CCR then Fail(m) else Advance(m.(ccr := m.r[s]))
    case Mov(s, n) => if s >= 16 || n >= 16 then Fail(m) else SetReg(m, n, m.r[s])
    case AddImm(imm, n) => if n >= 16 then Fail(m) else SetReg(m, n, (m.r[n] as int) + SignExtend8(imm))
    case Dt(n) => if n >= 16 then Fail(m) else SetReg(m.(t := m.r[n] == 1), n, (m.r[n] as int) - 1)
    case Bf(disp) =>
      if m.t then Advance(m)
      else
        var to := Wrap32((m.pc as int) + 4 + 2 * SignExtend8(disp));
        m.(pc := to, npc := Wrap32((to as int) + 2))
    case Jmp(n) => if n >= 16 then Fail(m) else m.(pc := m.npc, npc := m.r[n])
    case Nop => Advance(m)
    case Other => Fail(m)
  }

  /** Nothing further happens in this model once the loader has control or the machine has failed. */
  predicate Final(m: Sh4) {
    !m.ok || m.pc == ENTRY
  }

  function Step(m: Sh4): (r: Sh4)
    requires Shape(m)
    ensures Shape(r)
  {
    if Final(m) then m
    else
      var x := Index(m.pc);
      if x < 0 || x + 2 > RAM_SIZE then Fail(m) else Execute(m, Decode(Half(m.ram, x)))
  }

  function Steps(m: Sh4, n: nat): (r: Sh4)
    requires Shape(m)
    ensures Shape(r)
    decreases n
  {
    if n == 0 then m else Steps(Step(m), n - 1)
  }

  lemma {:induction false} StepsAdd(m: Sh4, a: nat, b: nat)
    requires Shape(m)
    ensures Steps(m, a + b) == Steps(Steps(m, a), b)
    decreases a
  {
    if a > 0 {
      StepsAdd(Step(m), a - 1, b);
    }
  }

  lemma {:induction false} FinalStays(m: Sh4, n: nat)
    requires Shape(m) && Final(m)
    ensures Steps(m, n) == m
    decreases n
  {
    if n > 0 {
      FinalStays(m, n - 1);
    }
  }

  /** The machine ends in one state: two final states of a run are the same. */
  lemma OneEnd(m: Sh4, a: nat, b: nat)
    requires Shape(m) && Final(Steps(m, a)) && Final(Steps(m, b))
    ensures Steps(m, a) == Steps(m, b)
  {
    if a <= b {
      StepsAdd(m, a, b - a);
      FinalStays(Steps(m, a), b - a);
    } else {
      StepsAdd(m, b, a - b);
      FinalStays(Steps(m, b), a - b);
    }
  }
}
