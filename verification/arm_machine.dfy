/** What the emitted instructions do to the registers and the flags. */
module ArmMachine {
  import opened ArmOperands

  /** A register other than the program counter. */
  type Register = r: nat | r < 15

  type Registers = s: seq<Word> | |s| == 15 witness seq(15, _ => 0)

  datatype Flags = Flags(negative: bool, zero: bool, carry: bool, overflow: bool)

  datatype Cpu = Cpu(regs: Registers, flags: Flags)

  /** The flexible operand: a rotated byte or a register. */
  datatype Operand2 = Immediate(imm8: Word, rotation: Word) | Reg(reg: Register)

  ghost predicate OperandOk(op: Operand2) {
    op.Immediate? ==> ImmediateOk(op.imm8, op.rotation)
  }

  datatype Instruction =
    | Mov(rd: Register, op: Operand2)
    | Mvn(rd: Register, op: Operand2)
    | Add(rd: Register, rn: Register, op: Operand2)
    | Sub(rd: Register, rn: Register, op: Operand2)
    | And(rd: Register, rn: Register, op: Operand2)
    | Bic(rd: Register, rn: Register, op: Operand2)
    | Orr(rd: Register, rn: Register, op: Operand2)
    | Cmp(rn: Register, op: Operand2)
    | Cmn(rn: Register, op: Operand2)
    | Ubfx(rd: Register, rn: Register, lsb: Word, width: Word)
    | Movw(rd: Register, imm16: Word)
    | Movt(rd: Register, imm16: Word)
    | LdrLit(rd: Register, literal: Word)

  ghost predicate Legal(ins: Instruction) {
    match ins
    case Ubfx(_, _, lsb, width) => lsb < 32 && 1 <= width <= 32 - lsb
    case Movw(_, imm16) => imm16 <= 0xFFFF
    case Movt(_, imm16) => imm16 <= 0xFFFF
    case LdrLit(_, _) => true
    case _ => OperandOk(ins.op)
  }

  ghost predicate AllLegal(code: seq<Instruction>) {
    forall i | 0 <= i < |code| :: Legal(code[i])
  }

  /** The bits below position `n`, all of them from 32 on. */
  function Low(n: Word): Word {
    if n < 32 then (1 << n) - 1 else 0xFFFF_FFFF
  }

  ghost function OperandValue(op: Operand2, regs: Registers): Word
    requires OperandOk(op)
  {
    match op
    case Immediate(imm8, rotation) => ImmediateValue(imm8, rotation)
    case Reg(reg) => regs[reg]
  }

  function Sign(x: Word): bool {
    x & 0x8000_0000 != 0
  }

  /** The second addend and the carry, without wrap-around. */
  ghost function Addend(y: Word, carryIn: bool): bv34 {
    (y as bv34) + if carryIn then 1 else 0
  }

  /** The flags after adding: sign, zero, carry out of bit 31, and equal signs that turn into the other sign. */
  ghost function FlagsOf(x: Word, signY: bool, addend: bv34): Flags {
    var sum := (x as bv34) + addend;
    var result := (sum & 0xFFFF_FFFF) as Word;
    Flags(Sign(result), result == 0, sum >> 32 != 0, Sign(x) == signY && Sign(result) != Sign(x))
  }

  /** The addition with carry that sets the flags (section A2.2.1). */
  ghost function AddWithCarryFlags(x: Word, y: Word, carryIn: bool): Flags {
    FlagsOf(x, Sign(y), Addend(y, carryIn))
  }

  ghost function CmpFlags(x: Word, y: Word): Flags {
    AddWithCarryFlags(x, !y, true)
  }

  ghost function CmnFlags(x: Word, y: Word): Flags {
    AddWithCarryFlags(x, y, false)
  }

  // Arithmetic and logic on words; the sums and differences wrap around.

  function Sum(a: Word, b: Word): Word {
    a + b
  }

  function Difference(a: Word, b: Word): Word {
    a - b
  }

  function Both(a: Word, b: Word): Word {
    a & b
  }

  function Either(a: Word, b: Word): Word {
    a | b
  }

  function Flipped(a: Word): Word {
    !a
  }

  function BitField(a: Word, lsb: Word, width: Word): Word
    requires lsb < 32
  {
    (a >> lsb) & Low(width)
  }

  /** The low half of one word below a new high half. */
  function Halves(low: Word, high: Word): Word {
    (low & 0xFFFF) | (high << 16)
  }

  ghost function Set(cpu: Cpu, rd: Register, value: Word): Cpu {
    cpu.(regs := cpu.regs[rd := value])
  }

  ghost function Step(ins: Instruction, cpu: Cpu): Cpu
    requires Legal(ins)
  {
    match ins
    case Mov(rd, op) => Set(cpu, rd, OperandValue(op, cpu.regs))
    case Mvn(rd, op) => Set(cpu, rd, Flipped(OperandValue(op, cpu.regs)))
    case Add(rd, rn, op) => Set(cpu, rd, Sum(cpu.regs[rn], OperandValue(op, cpu.regs)))
    case Sub(rd, rn, op) => Set(cpu, rd, Difference(cpu.regs[rn], OperandValue(op, cpu.regs)))
    case And(rd, rn, op) => Set(cpu, rd, Both(cpu.regs[rn], OperandValue(op, cpu.regs)))
    case Bic(rd, rn, op) => Set(cpu, rd, Both(cpu.regs[rn], Flipped(OperandValue(op, cpu.regs))))
    case Orr(rd, rn, op) => Set(cpu, rd, Either(cpu.regs[rn], OperandValue(op, cpu.regs)))
    case Cmp(rn, op) => cpu.(flags := CmpFlags(cpu.regs[rn], OperandValue(op, cpu.regs)))
    case Cmn(rn, op) => cpu.(flags := CmnFlags(cpu.regs[rn], OperandValue(op, cpu.regs)))
    case Ubfx(rd, rn, lsb, width) => Set(cpu, rd, BitField(cpu.regs[rn], lsb, width))
    case Movw(rd, imm16) => Set(cpu, rd, imm16)
    case Movt(rd, imm16) => Set(cpu, rd, Halves(cpu.regs[rd], imm16))
    case LdrLit(rd, literal) => Set(cpu, rd, literal)
  }

  ghost function Run(code: seq<Instruction>, cpu: Cpu): Cpu
    requires AllLegal(code)
  {
    if code == [] then cpu else Step(code[|code| - 1], Run(code[..|code| - 1], cpu))
  }

  // ---------------------------------------------------------------- what a piece of code is for

  /** A value that depends on the state before the code. */
  datatype Goal =
    | Constant(value: Word)
    | Plus(rs: Register, value: Word)
    | Minus(rs: Register, value: Word)
    | Masked(rs: Register, value: Word)
    | With(rs: Register, value: Word)

  ghost function Wanted(goal: Goal, regs: Registers): Word {
    match goal
    case Constant(value) => value
    case Plus(rs, value) => Sum(regs[rs], value)
    case Minus(rs, value) => Difference(regs[rs], value)
    case Masked(rs, value) => Both(regs[rs], value)
    case With(rs, value) => Either(regs[rs], value)
  }

  ghost predicate Leaves(before: Cpu, after: Cpu, rd: Register, goal: Goal, spoiled: set<Register>) {
    && after.regs[rd] == Wanted(goal, before.regs) && after.flags == before.flags
    && forall k: Register | k != rd && k !in spoiled :: after.regs[k] == before.regs[k]
  }

  /** From every state the code puts the wanted value into `rd`, and changes nothing but that and `spoiled`. */
  ghost predicate Yields(code: seq<Instruction>, rd: Register, goal: Goal, spoiled: set<Register>) {
    AllLegal(code) && forall cpu: Cpu :: Leaves(cpu, Run(code, cpu), rd, goal, spoiled)
  }

  ghost predicate Compared(before: Cpu, after: Cpu, rs: Register, value: Word, spoiled: set<Register>) {
    && after.flags == CmpFlags(before.regs[rs], value)
    && forall k: Register | k !in spoiled :: after.regs[k] == before.regs[k]
  }

  /** From every state the code sets the flags of comparing `rs` with the value, and changes no register but `spoiled`. */
  ghost predicate Compares(code: seq<Instruction>, rs: Register, value: Word, spoiled: set<Register>) {
    AllLegal(code) && forall cpu: Cpu :: Compared(cpu, Run(code, cpu), rs, value, spoiled)
  }

  lemma RunSnoc(code: seq<Instruction>, ins: Instruction, cpu: Cpu)
    requires AllLegal(code) && Legal(ins)
    ensures AllLegal(code + [ins]) && Run(code + [ins], cpu) == Step(ins, Run(code, cpu))
  {
    assert (code + [ins])[..|code|] == code;
  }

  // ---------------------------------------------------------------- comparing with the negated constant

  /** Adding the negation sets the same four flags as comparing, but not for the two constants that are their own negation. */
  lemma CmnOfNegation(x: Word, value: Word)
    requires value != 0 && value != 0x8000_0000
    ensures CmnFlags(x, -value) == CmpFlags(x, value)
  {
    hide FlagsOf, Sign, Addend;
    SameSign(value);
    SameAddend(value);
  }

  lemma SameSign(value: Word)
    requires value != 0 && value != 0x8000_0000
    ensures Sign(-value) == Sign(!value)
  {
  }

  lemma SameAddend(value: Word)
    requires value != 0
    ensures Addend(-value, false) == Addend(!value, true)
  {
  }

  lemma CmnDiffers()
    ensures CmnFlags(0, 0).carry != CmpFlags(0, 0).carry
    ensures CmnFlags(0, 0x8000_0000).overflow != CmpFlags(0, 0x8000_0000).overflow
  {
  }

  lemma SelfNegatedEncodable()
    ensures Encodable(0) && Encodable(0x8000_0000)
  {
    assert Encodes(0, 0, 0);
    assert Encodes(2, 1, 0x8000_0000);
  }

  /** What each instruction leaves in its register, in numbers. */
  lemma ComputedExamples(cpu: Cpu)
    requires cpu.regs[1] == 0xF0F0_00FF
    ensures Step(Mov(0, Immediate(0xFF, 4)), cpu).regs[0] == 0xFF00_0000
    ensures Step(Mvn(0, Immediate(0xFF, 4)), cpu).regs[0] == 0x00FF_FFFF
    ensures Step(Add(0, 1, Immediate(1, 0)), cpu).regs[0] == 0xF0F0_0100
    ensures Step(Sub(0, 1, Immediate(1, 0)), cpu).regs[0] == 0xF0F0_00FE
  {
  }

  lemma ComputedBits(cpu: Cpu)
    requires cpu.regs[1] == 0xF0F0_00FF
    ensures Step(And(0, 1, Immediate(0x3C, 0)), cpu).regs[0] == 0x3C
    ensures Step(Bic(0, 1, Immediate(0x3C, 0)), cpu).regs[0] == 0xF0F0_00C3
    ensures Step(Orr(0, 1, Immediate(0xF, 4)), cpu).regs[0] == 0xFFF0_00FF
  {
  }

  lemma ComputedHalves(cpu: Cpu)
    requires cpu.regs[1] == 0xF0F0_00FF
    ensures Step(Ubfx(0, 1, 0, 12), cpu).regs[0] == 0x0FF && Step(Ubfx(0, 1, 4, 4), cpu).regs[0] == 0xF
    ensures Step(Movw(1, 0x1234), cpu).regs[1] == 0x1234 && Step(Movt(1, 0x1234), cpu).regs[1] == 0x1234_00FF
    ensures Step(LdrLit(0, 0x1234_5678), cpu).regs[0] == 0x1234_5678
  {
  }

  /** Comparisons with equal, smaller and larger numbers, and where the signed difference wraps around. */
  lemma ComparedExamples()
    ensures CmpFlags(5, 5) == Flags(false, true, true, false) && CmpFlags(3, 5) == Flags(true, false, false, false)
    ensures CmpFlags(5, 3) == Flags(false, false, true, false) && CmpFlags(0x8000_0000, 1) == Flags(false, false, true, true)
    ensures CmpFlags(0x7FFF_FFFF, 0xFFFF_FFFF) == Flags(true, false, false, true)
    ensures CmpFlags(0, 0x8000_0000) == Flags(true, false, false, true)
  {
  }
}
