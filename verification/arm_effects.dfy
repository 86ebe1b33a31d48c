/** What single instructions and pieces of code composed of them achieve. */
module ArmEffects {
  import opened ArmOperands
  import opened ArmMachine

  /** Alone, the instruction puts the wanted value into `rd`. */
  ghost predicate Achieves(ins: Instruction, rd: Register, goal: Goal) {
    Legal(ins) && forall cpu: Cpu :: Leaves(cpu, Step(ins, cpu), rd, goal, {})
  }

  /** Whenever `mid` has been achieved in `from`, the instruction achieves `goal` in `rd`. */
  ghost predicate Continues(ins: Instruction, from: Register, mid: Goal, rd: Register, goal: Goal, spoiled: set<Register>)
  {
    Legal(ins)
    && forall cpu: Cpu, between: Cpu | Leaves(cpu, between, from, mid, {}) ::
      Leaves(cpu, Step(ins, between), rd, goal, spoiled)
  }

  lemma Alone(ins: Instruction, rd: Register, goal: Goal)
    requires Achieves(ins, rd, goal)
    ensures Yields([ins], rd, goal, {})
  {
    hide Leaves, Step, Legal;
    forall cpu: Cpu
      ensures AllLegal([ins]) && Leaves(cpu, Run([ins], cpu), rd, goal, {})
    {
      RunSnoc([], ins, cpu);
      assert [] + [ins] == [ins];
    }
  }

  lemma Then(code: seq<Instruction>, ins: Instruction, from: Register, mid: Goal, rd: Register, goal: Goal,
             spoiled: set<Register>)
    requires Yields(code, from, mid, {}) && Continues(ins, from, mid, rd, goal, spoiled)
    ensures Yields(code + [ins], rd, goal, spoiled)
  {
    hide Leaves, Step, Legal;
    forall cpu: Cpu
      ensures AllLegal(code + [ins]) && Leaves(cpu, Run(code + [ins], cpu), rd, goal, spoiled)
    {
      RunSnoc(code, ins, cpu);
    }
  }

  // ---------------------------------------------------------------- the instructions used

  ghost predicate Holds(op: Operand2, value: Word) {
    op.Immediate? && Encodes(op.imm8, op.rotation, value)
  }

  lemma MovAchieves(rd: Register, op: Operand2, value: Word)
    requires Holds(op, value)
    ensures Achieves(Mov(rd, op), rd, Constant(value)) && Achieves(Mvn(rd, op), rd, Constant(Flipped(value)))
  {
    hide ImmediateValue, Rotr, Sum, Difference, Both, Either, Flipped, Halves, BitField;
  }

  lemma CopyAchieves(rd: Register, rs: Register)
    ensures Achieves(Mov(rd, Reg(rs)), rd, Plus(rs, 0)) && Achieves(Mov(rd, Reg(rs)), rd, With(rs, 0))
  {
    hide Sum, Either;
    forall a: Word
      ensures Sum(a, 0) == a && Either(a, 0) == a
    {
      NeutralZero(a);
    }
  }

  lemma AddAchieves(rd: Register, rs: Register, op: Operand2, value: Word)
    requires Holds(op, value)
    ensures Achieves(Add(rd, rs, op), rd, Plus(rs, value))
  {
    hide ImmediateValue, Rotr, Sum, Difference, Both, Either, Flipped, Halves, BitField;
  }

  lemma SubAchieves(rd: Register, rs: Register, op: Operand2, value: Word)
    requires Holds(op, value)
    ensures Achieves(Sub(rd, rs, op), rd, Minus(rs, value))
  {
    hide ImmediateValue, Rotr, Sum, Difference, Both, Either, Flipped, Halves, BitField;
  }

  lemma AndAchieves(rd: Register, rs: Register, op: Operand2, value: Word)
    requires Holds(op, value)
    ensures Achieves(And(rd, rs, op), rd, Masked(rs, value)) && Achieves(Bic(rd, rs, op), rd, Masked(rs, Flipped(value)))
  {
    hide ImmediateValue, Rotr, Sum, Difference, Both, Either, Flipped, Halves, BitField;
  }

  lemma OrrAchieves(rd: Register, rs: Register, op: Operand2, value: Word)
    requires Holds(op, value)
    ensures Achieves(Orr(rd, rs, op), rd, With(rs, value))
  {
    hide ImmediateValue, Rotr, Sum, Difference, Both, Either, Flipped, Halves, BitField;
  }

  lemma UbfxAchieves(rd: Register, rs: Register, width: Word)
    requires 1 <= width <= 32
    ensures Achieves(Ubfx(rd, rs, 0, width), rd, Masked(rs, Low(width)))
  {
    hide Low, BitField, Both;
    forall a: Word
      ensures BitField(a, 0, width) == Both(a, Low(width))
    {
      FromBitZero(a, width);
    }
  }

  lemma MovwAchieves(rd: Register, imm16: Word)
    requires imm16 <= 0xFFFF
    ensures Achieves(Movw(rd, imm16), rd, Constant(imm16))
  {
  }

  lemma MovtContinues(rd: Register, value: Word)
    ensures Continues(Movt(rd, value >> 16), rd, Constant(value & 0xFFFF), rd, Constant(value), {})
  {
    hide Halves;
    HalvesJoin(value);
  }

  lemma LdrAchieves(rd: Register, literal: Word)
    ensures Achieves(LdrLit(rd, literal), rd, Constant(literal))
  {
  }

  // ---------------------------------------------------------------- laws of word arithmetic

  lemma EitherJoins(a: Word, b: Word, c: Word)
    ensures Either(Either(a, b), c) == Either(a, Either(b, c))
  {
  }

  lemma BothJoins(a: Word, b: Word, c: Word)
    ensures Both(Both(a, b), c) == Both(a, Both(b, c))
  {
  }

  lemma Associative(a: Word, b: Word, c: Word)
    ensures (a + b) + c == a + (b + c) && (a - b) - c == a - (b + c)
  {
  }

  lemma SumJoins(a: Word, b: Word, c: Word)
    ensures Sum(Sum(a, b), c) == Sum(a, Sum(b, c))
  {
    Associative(a, b, c);
    assert Sum(a, b) == a + b && Sum(b, c) == b + c;
    assert Sum(a + b, c) == (a + b) + c;
  }

  lemma DifferenceJoins(a: Word, b: Word, c: Word)
    ensures Difference(Difference(a, b), c) == Difference(a, Sum(b, c))
  {
    Associative(a, b, c);
    assert Difference(a, b) == a - b && Sum(b, c) == b + c;
    assert Difference(a - b, c) == (a - b) - c;
  }

  lemma NeutralZero(a: Word)
    ensures Sum(a, 0) == a && Either(a, 0) == a
  {
  }

  lemma NothingLeft(a: Word)
    ensures Difference(a, a) == 0
  {
  }

  lemma BothTwice(a: Word)
    ensures Both(a, a) == a && Either(a, a) == a
  {
  }

  lemma MinusLaw(a: Word, b: Word)
    ensures Difference(a, b) == Sum(a, -b)
  {
  }

  lemma FromBitZero(a: Word, width: Word)
    ensures BitField(a, 0, width) == Both(a, Low(width))
  {
  }

  lemma HalvesJoin(value: Word)
    ensures value >> 16 <= 0xFFFF && Halves(value & 0xFFFF, value >> 16) == value
  {
  }

  // ---------------------------------------------------------------- a second step on the result of the first

  lemma OrrContinues(rd: Register, rs: Register, op: Operand2, mask: Word, value: Word)
    requires Holds(op, value)
    ensures Continues(Orr(rd, rd, op), rd, With(rs, mask), rd, With(rs, Either(mask, value)), {})
    ensures Continues(Orr(rd, rd, op), rd, Constant(mask), rd, Constant(Either(mask, value)), {})
  {
    hide ImmediateValue, Rotr, Sum, Difference, Both, Either, Flipped, Halves, BitField;
    forall a: Word
      ensures Either(Either(a, mask), value) == Either(a, Either(mask, value))
    {
      EitherJoins(a, mask, value);
    }
  }

  lemma BicContinues(rd: Register, rs: Register, op: Operand2, mask: Word, value: Word)
    requires Holds(op, value)
    ensures Continues(Bic(rd, rd, op), rd, Masked(rs, mask), rd, Masked(rs, Both(mask, Flipped(value))), {})
  {
    hide ImmediateValue, Rotr, Sum, Difference, Both, Either, Flipped, Halves, BitField;
    forall a: Word
      ensures Both(Both(a, mask), Flipped(value)) == Both(a, Both(mask, Flipped(value)))
    {
      BothJoins(a, mask, Flipped(value));
    }
  }

  lemma AddContinues(rd: Register, rs: Register, op: Operand2, first: Word, value: Word)
    requires Holds(op, value)
    ensures Continues(Add(rd, rd, op), rd, Plus(rs, first), rd, Plus(rs, Sum(first, value)), {})
  {
    hide ImmediateValue, Rotr, Sum, Difference, Both, Either, Flipped, Halves, BitField;
    forall a: Word
      ensures Sum(Sum(a, first), value) == Sum(a, Sum(first, value))
    {
      SumJoins(a, first, value);
    }
  }

  lemma SubContinues(rd: Register, rs: Register, op: Operand2, first: Word, value: Word)
    requires Holds(op, value)
    ensures Continues(Sub(rd, rd, op), rd, Minus(rs, first), rd, Minus(rs, Sum(first, value)), {})
  {
    hide ImmediateValue, Rotr, Sum, Difference, Both, Either, Flipped, Halves, BitField;
    forall a: Word
      ensures Difference(Difference(a, first), value) == Difference(a, Sum(first, value))
    {
      DifferenceJoins(a, first, value);
    }
  }

  // ---------------------------------------------------------------- through a scratch register

  lemma AddViaScratch(rd: Register, rs: Register, scratch: Register, value: Word)
    ensures Continues(Add(rd, rs, Reg(scratch)), scratch, Constant(value), rd,
                      if scratch == rs then Constant(Sum(value, value)) else Plus(rs, value), {scratch})
  {
    hide Sum;
  }

  lemma SubViaScratch(rd: Register, rs: Register, scratch: Register, value: Word)
    ensures Continues(Sub(rd, rs, Reg(scratch)), scratch, Constant(value), rd,
                      if scratch == rs then Constant(0) else Minus(rs, value), {scratch})
  {
    hide Difference;
    forall a: Word
      ensures Difference(a, a) == 0
    {
      NothingLeft(a);
    }
  }

  lemma AndViaScratch(rd: Register, rs: Register, scratch: Register, value: Word)
    ensures Continues(And(rd, rs, Reg(scratch)), scratch, Constant(value), rd,
                      if scratch == rs then Constant(value) else Masked(rs, value), {scratch})
  {
    hide Both;
    BothTwice(value);
  }

  lemma OrrViaScratch(rd: Register, rs: Register, scratch: Register, value: Word)
    ensures Continues(Orr(rd, rs, Reg(scratch)), scratch, Constant(value), rd,
                      if scratch == rs then Constant(value) else With(rs, value), {scratch})
  {
    hide Either;
    BothTwice(value);
  }

  // ---------------------------------------------------------------- what goes wrong with the source as scratch

  ghost function Everywhere(x: Word): Cpu {
    Cpu(seq(15, _ => x), Flags(false, false, false, false))
  }

  /** Code that leaves a constant does not leave what depends on a register, if some register value shows it. */
  lemma ConstantOnly(code: seq<Instruction>, rd: Register, value: Word, goal: Goal, spoiled: set<Register>, x: Word)
    requires Yields(code, rd, Constant(value), spoiled) && Wanted(goal, Everywhere(x).regs) != value
    ensures !Yields(code, rd, goal, spoiled)
  {
    hide Run, Wanted;
    var cpu := Everywhere(x);
    assert Leaves(cpu, Run(code, cpu), rd, Constant(value), spoiled);
    ConstantWanted(value, cpu.regs);
  }

  lemma ConstantWanted(value: Word, regs: Registers)
    ensures Wanted(Constant(value), regs) == value
  {
  }

  lemma NotTwice(code: seq<Instruction>, rd: Register, rs: Register, value: Word, spoiled: set<Register>)
    requires Yields(code, rd, Constant(Sum(value, value)), spoiled)
    ensures !Yields(code, rd, Plus(rs, value), spoiled)
  {
    hide Yields, Sum;
    SumDiffers(value);
    ConstantOnly(code, rd, Sum(value, value), Plus(rs, value), spoiled, value + 1);
  }

  lemma SumDiffers(value: Word)
    ensures Sum(value + 1, value) != Sum(value, value)
  {
  }

  lemma NotNothing(code: seq<Instruction>, rd: Register, rs: Register, value: Word, spoiled: set<Register>)
    requires Yields(code, rd, Constant(0), spoiled)
    ensures !Yields(code, rd, Minus(rs, value), spoiled)
  {
    hide Yields, Difference;
    DifferenceDiffers(value);
    ConstantOnly(code, rd, 0, Minus(rs, value), spoiled, value + 1);
  }

  lemma DifferenceDiffers(value: Word)
    ensures Difference(value + 1, value) != 0
  {
  }

  lemma NotUnmasked(code: seq<Instruction>, rd: Register, rs: Register, value: Word, spoiled: set<Register>)
    requires Yields(code, rd, Constant(value), spoiled) && value != 0
    ensures !Yields(code, rd, Masked(rs, value), spoiled)
  {
    hide Yields, Both;
    BothDiffers(value);
    ConstantOnly(code, rd, value, Masked(rs, value), spoiled, 0);
  }

  lemma BothDiffers(value: Word)
    ensures Both(0, value) == 0
  {
  }

  lemma NotWithout(code: seq<Instruction>, rd: Register, rs: Register, value: Word, spoiled: set<Register>)
    requires Yields(code, rd, Constant(value), spoiled) && value != 0xFFFF_FFFF
    ensures !Yields(code, rd, With(rs, value), spoiled)
  {
    hide Yields, Either;
    EitherDiffers(value);
    ConstantOnly(code, rd, value, With(rs, value), spoiled, 0xFFFF_FFFF);
  }

  lemma EitherDiffers(value: Word)
    ensures Either(0xFFFF_FFFF, value) == 0xFFFF_FFFF
  {
  }

  /** Setting all bits leaves all ones, whatever was there. */
  lemma AllOnesAnyway(code: seq<Instruction>, rd: Register, rs: Register, spoiled: set<Register>)
    requires Yields(code, rd, Constant(0xFFFF_FFFF), spoiled)
    ensures Yields(code, rd, With(rs, 0xFFFF_FFFF), spoiled)
  {
    hide Run, Either;
    forall a: Word
      ensures Either(a, 0xFFFF_FFFF) == 0xFFFF_FFFF
    {
      AllOnesAbsorb(a);
    }
  }

  lemma AllOnesAbsorb(a: Word)
    ensures Either(a, 0xFFFF_FFFF) == 0xFFFF_FFFF
  {
  }

  /** Changing less is allowed. */
  lemma SpoilsLess(code: seq<Instruction>, rd: Register, goal: Goal, scratch: Register)
    requires Yields(code, rd, goal, {})
    ensures Yields(code, rd, goal, {scratch})
  {
    hide Run, Wanted;
    forall cpu: Cpu
      ensures Leaves(cpu, Run(code, cpu), rd, goal, {scratch})
    {
      assert Leaves(cpu, Run(code, cpu), rd, goal, {});
    }
  }

  /** Adding a constant is subtracting its negation. */
  lemma MinusIsPlus(code: seq<Instruction>, rd: Register, rs: Register, value: Word, spoiled: set<Register>)
    ensures Yields(code, rd, Minus(rs, value), spoiled) <==> Yields(code, rd, Plus(rs, -value), spoiled)
  {
    hide Run, Sum, Difference;
    forall a: Word
      ensures Difference(a, value) == Sum(a, -value)
    {
      MinusLaw(a, value);
    }
  }
}
