/** The emitter: constants that do not fit one instruction are built from several. */
module ArmEmitter {
  import opened ArmOperands
  import opened ArmMachine
  import opened ArmEffects
  import opened ArmWindows

  /** The constant is a run of ones from bit 0. */
  ghost predicate LowOnes(value: Word) {
    exists width: Word :: 1 <= width < 32 && value == Low(width)
  }

  /** One or two additions or subtractions of immediate operands are found for the constant. */
  ghost predicate AddFits(value: Word) {
    value == 0 || Encodable(value) || Encodable(-value) || Short(value) || Short(-value)
  }

  predicate Short(value: Word) {
    value & 0xFFFF_0000 == 0
  }

  ghost predicate AndFits(value: Word, armv7: bool) {
    || value == 0 || Encodable(value) || Encodable(!value) || !armv7
    || LowOnes(value) || Windows(Flipped(value), 0) <= 3
  }

  ghost predicate OrFits(value: Word, armv7: bool) {
    || value == 0 || Encodable(value)
    || Windows(value, 0) <= 2
    || (!Encodable(!value) && (Windows(value, 0) == 3 || !armv7))
  }

  /** Instructions that every processor of the family has. */
  predicate Portable(made: seq<Instruction>) {
    forall i | 0 <= i < |made| :: !made[i].Ubfx? && !made[i].Movw? && !made[i].Movt?
  }

  lemma PortableMore(made: seq<Instruction>, ins: Instruction)
    requires Portable(made) && !ins.Ubfx? && !ins.Movw? && !ins.Movt?
    ensures Portable(made + [ins])
  {
  }

  lemma NoneIsPortable()
    ensures Portable([])
  {
  }

  /** How many instructions add the constant. */
  ghost function AddCount(rd: Register, rs: Register, value: Word): nat {
    if value == 0 then if rd == rs then 0 else 1
    else if Encodable(value) || Encodable(-value) then 1
    else 2
  }

  /** How many instructions mask with the constant. */
  ghost function AndCount(value: Word, armv7: bool): nat {
    if value == 0 || Encodable(value) || Encodable(!value) || (armv7 && LowOnes(value)) then 1 else Windows(Flipped(value), 0)
  }

  /** How many instructions set its bits. */
  ghost function OrCount(rd: Register, rs: Register, value: Word): nat {
    if value == 0 then if rd == rs then 0 else 1 else if Encodable(value) then 1 else Windows(value, 0)
  }

  /** How many instructions move it. */
  ghost function MovCount(value: Word, armv7: bool, optimize: bool): nat {
    if armv7 && !optimize then 2
    else if Encodable(value) || Encodable(!value) || !armv7 || value & 0xFFFF_0000 == 0 then 1
    else 2
  }

  class Emitter {
    const armv7: bool
    var code: seq<Instruction>
    /** The words to be placed behind the code for loads. */
    var literals: seq<Word>

    constructor (armv7: bool)
      ensures this.armv7 == armv7 && code == [] && literals == []
    {
      this.armv7 := armv7;
      code, literals := [], [];
    }

    method Emit(ins: Instruction)
      modifies `code
      ensures code == old(code) + [ins]
    {
      code := code + [ins];
    }

    // -------------------------------------------------------------- moving a constant

    method MovHalves(reg: Register, value: Word) returns (ghost made: seq<Instruction>)
      modifies `code
      ensures code == old(code) + made && Yields(made, reg, Constant(value), {})
      ensures made == [Movw(reg, value & 0xFFFF), Movt(reg, value >> 16)]
    {
      hide Yields, Achieves, Continues;
      var low, high := Movw(reg, value & 0xFFFF), Movt(reg, value >> 16);
      Emit(low);
      Emit(high);
      made := [low] + [high];
      LowHalf(value);
      MovwAchieves(reg, value & 0xFFFF);
      Alone(low, reg, Constant(value & 0xFFFF));
      MovtContinues(reg, value);
      Then([low], high, reg, Constant(value & 0xFFFF), reg, Constant(value), {});
    }

    /** Whatever the constant and the options, the register ends up holding it: by one instruction if the constant or its
        complement is encodable, by one or two halves on ARMv7, and by a load from the pool on older processors. */
    method MovImmediate(reg: Register, value: Word, optimize: bool) returns (ghost made: seq<Instruction>)
      modifies this
      ensures code == old(code) + made && Yields(made, reg, Constant(value), {})
      ensures 1 <= |made| == MovCount(value, armv7, optimize) <= 2 && (!armv7 ==> Portable(made))
      ensures armv7 && !optimize ==> made == [Movw(reg, value & 0xFFFF), Movt(reg, value >> 16)]
      ensures !(armv7 && !optimize) && Encodable(value) ==> made[0].Mov?
      ensures !(armv7 && !optimize) && !Encodable(value) && Encodable(!value) ==> made[0].Mvn?
      ensures var load := !armv7 && !Encodable(value) && !Encodable(!value);
              (made == [LdrLit(reg, value)] <==> load) && literals == old(literals) + if load then [value] else []
    {
      hide Yields, Achieves, Continues, Encodable, Encodes, Flipped;
      if !optimize && armv7 {
        made := MovHalves(reg, value);
        return;
      }
      var ok, imm8, rotation, inverse := TryMakeOperand2AllowInverse(value);
      if ok {
        var op := Immediate(imm8, rotation);
        MovAchieves(reg, op, if inverse then !value else value);
        FlippedTwice(value);
        var ins := if inverse then Mvn(reg, op) else Mov(reg, op);
        Emit(ins);
        made := [ins];
        Alone(ins, reg, Constant(value));
      } else if armv7 {
        if value & 0xFFFF_0000 != 0 {
          made := MovHalves(reg, value);
        } else {
          var ins := Movw(reg, value & 0xFFFF);
          Emit(ins);
          made := [ins];
          LowHalf(value);
          MovwAchieves(reg, value & 0xFFFF);
          Alone(ins, reg, Constant(value));
        }
      } else {
        literals := literals + [value];
        var ins := LdrLit(reg, value);
        Emit(ins);
        made := [ins];
        LdrAchieves(reg, value);
        Alone(ins, reg, Constant(value));
      }
    }

    // -------------------------------------------------------------- at most two instructions, without the pool

    /** Succeeds exactly for constants that two bytes at even positions make up; zero makes it emit nothing. */
    method TrySetValueTwoOp(reg: Register, value: Word) returns (ok: bool, ghost made: seq<Instruction>)
      modifies `code
      ensures ok <==> FitsTwoBytes(value)
      ensures code == old(code) + made && |made| == (if ok then Windows(value, 0) else 0) <= 2 && Portable(made)
      ensures ok && value != 0 ==> Yields(made, reg, Constant(value), {})
      ensures !ok || value == 0 ==> made == []
    {
      hide Windows, PairAt, Collected, FitsTwoBytes, Yields, Achieves, Continues, ImmediateValue, Either, Both, Shifted, Portable;
      NoneIsPortable();
      var ops := CountShifted(value);
      GreedyIsBest(value);
      made := [];
      if ops > 2 {
        return false, [];
      }
      ok := true;
      var first := true;
      var i: Word := 0;
      var rest := value;
      ghost var mask: Word := 0;
      AtTheStart(value);
      while i < 16
        invariant i <= 20 && code == old(code) + made && Portable(made)
        invariant rest == Shifted(value, i)
        invariant Collected(value, mask, 2 * i)
        invariant |made| + Windows(value, 2 * i) == Windows(value, 0)
        invariant first ==> made == [] && mask == 0
        invariant !first ==> made != [] && Yields(made, reg, Constant(mask), {})
        decreases if i < 16 then 16 - i else 0
      {
        ShiftTurn(value, mask, i);
        if rest & 3 != 0 {
          var op := Immediate(rest & 0xFF, (16 - i) & 0xF);
          var ins := if first then Mov(reg, op) else Orr(reg, reg, op);
          Emit(ins);
          OrStep(made, ins, reg, op, first, mask);
          PortableMore(made, ins);
          made, mask := made + [ins], Either(mask, ImmediateValue(rest & 0xFF, (16 - i) & 0xF));
          first := false;
          i, rest := i + 4, (rest >> 6) >> 2;
        } else {
          i, rest := i + 1, rest >> 2;
        }
      }
      PastThePairs(value, mask, i);
      NoPairInZero(0);
    }

    method CountShifted(value: Word) returns (ops: nat)
      ensures ops == Windows(value, 0)
    {
      hide Windows, Shifted;
      ops := 0;
      var i: Word := 0;
      while i < 16
        invariant i <= 20 && ops + Windows(value, 2 * i) == Windows(value, 0)
        decreases if i < 16 then 16 - i else 0
      {
        PairStep(value, i);
        if Shifted(value, i) & 3 != 0 {
          ops := ops + 1;
          i := i + 4;
        } else {
          i := i + 1;
        }
      }
      PastThePairs(value, 0, i);
    }

    // -------------------------------------------------------------- bytes set one after the other

    /** How many bytes with a set low pair a scan of the rotations finds. */
    method CountSet(value: Word) returns (ops: nat)
      ensures ops == Windows(value, 0)
    {
      hide Windows, ByteAt, Even;
      ops := 0;
      var i: Word := 0;
      EvenZero();
      while i < 32
        invariant i <= 40 && Even(i) && ops + Windows(value, i) == Windows(value, 0)
        decreases if i < 32 then 32 - i else 0
      {
        RotatedStep(value, i);
        if ByteAt(value, i) & 3 != 0 {
          ops := ops + 1;
          i := i + 8;
        } else {
          i := i + 2;
        }
      }
      PastTheWord(value, 0, i);
    }

    /** One instruction for each byte of the cut, the later ones on top of the first. */
    method EmitOrs(rd: Register, rs: Register, value: Word) returns (ghost made: seq<Instruction>)
      requires value != 0
      modifies `code
      ensures code == old(code) + made && |made| == Windows(value, 0) && Portable(made)
      ensures Yields(made, rd, With(rs, value), {})
    {
      hide Windows, PairAt, Collected, Yields, Achieves, Continues, ImmediateValue, Either, ByteAt, BackRotation, Even;
      made := [];
      var first := true;
      var i: Word := 0;
      ghost var mask: Word := 0;
      AtTheStart(value);
      EvenZero();
      while i < 32
        invariant i <= 40 && Even(i) && code == old(code) + made && Portable(made)
        invariant Collected(value, mask, i)
        invariant |made| + Windows(value, i) == Windows(value, 0)
        invariant first ==> made == [] && mask == 0
        invariant !first ==> Yields(made, rd, With(rs, mask), {})
        decreases if i < 32 then 32 - i else 0
      {
        var bits := ByteAt(value, i);
        RotatedStep(value, i);
        if bits & 3 != 0 {
          var op := Immediate(bits, BackRotation(i));
          TakeByte(value, mask, i);
          var ins := Orr(rd, if first then rs else rd, op);
          Emit(ins);
          OrrStep(made, ins, rd, rs, op, first, mask);
          made, mask := made + [ins], Either(mask, ImmediateValue(bits, BackRotation(i)));
          first := false;
          i := i + 8;
        } else {
          SkipRotated(value, mask, i);
          i := i + 2;
        }
      }
      PastTheWord(value, mask, i);
    }

    /** One instruction for each byte of the complement's cut. */
    method EmitBics(rd: Register, rs: Register, value: Word) returns (ghost made: seq<Instruction>)
      requires Flipped(value) != 0
      modifies `code
      ensures code == old(code) + made && |made| == Windows(Flipped(value), 0) && Portable(made)
      ensures Yields(made, rd, Masked(rs, value), {})
    {
      hide Windows, PairAt, Collected, Yields, Achieves, Continues, ImmediateValue, Either, Both, ByteAt, BackRotation,
        Place, Flipped, Portable, Clearing;
      ClearingStarts(rd, rs);
      made := [];
      var first := true;
      var i: Word := 0;
      ghost var gone := Flipped(value);
      ghost var mask: Word := 0;
      AtTheStart(gone);
      PlaceZero();
      while i < 32
        invariant Place(i) && code == old(code) + made
        invariant Collected(gone, mask, i)
        invariant |made| + Windows(gone, i) == Windows(gone, 0)
        invariant Clearing(made, rd, rs, first, mask)
        decreases if i < 32 then 32 - i else 0
      {
        var bits := ByteAt(value, i);
        ClearTurn(value, mask, i);
        if bits & 3 != 3 {
          var cleared := !bits & 0xFF;
          var op := Immediate(cleared, BackRotation(i));
          var ins := Bic(rd, if first then rs else rd, op);
          Emit(ins);
          BicStep(made, ins, rd, rs, op, first, mask);
          made, mask := made + [ins], Either(mask, ImmediateValue(cleared, BackRotation(i)));
          first := false;
          i := i + 8;
        } else {
          i := i + 2;
        }
      }
      PastTheWord(gone, mask, i);
      FlippedBack(value);
      ClearingEnds(made, rd, rs, first, mask);
    }

    // -------------------------------------------------------------- adding and subtracting a constant

    /** Two additions or two subtractions of a byte each. */
    method EmitHalves(rd: Register, rs: Register, value: Word, negative: bool) returns (ghost made: seq<Instruction>)
      requires Short(value)
      modifies `code
      ensures code == old(code) + made && |made| == 2 && Portable(made)
      ensures Yields(made, rd, if negative then Minus(rs, value) else Plus(rs, value), {})
    {
      hide Yields, Achieves, Continues, ImmediateValue, Sum, Encodes;
      HighAndLow(value);
      var high, low := Immediate((value >> 8) & 0xFF, 12), Immediate(value & 0xFF, 0);
      ghost var top := value & 0xFF00;
      var one := if negative then Sub(rd, rs, high) else Add(rd, rs, high);
      var two := if negative then Sub(rd, rd, low) else Add(rd, rd, low);
      Emit(one);
      Emit(two);
      made := [one] + [two];
      if negative {
        SubAchieves(rd, rs, high, top);
        Alone(one, rd, Minus(rs, top));
        SubContinues(rd, rs, low, top, value & 0xFF);
        Then([one], two, rd, Minus(rs, top), rd, Minus(rs, value), {});
      } else {
        AddAchieves(rd, rs, high, top);
        Alone(one, rd, Plus(rs, top));
        AddContinues(rd, rs, low, top, value & 0xFF);
        Then([one], two, rd, Plus(rs, top), rd, Plus(rs, value), {});
      }
    }

    /** A copy, unless the register already is the right one. */
    method EmitCopy(rd: Register, rs: Register) returns (ghost made: seq<Instruction>)
      modifies `code
      ensures code == old(code) + made && |made| == (if rd == rs then 0 else 1) && Portable(made)
      ensures Yields(made, rd, Plus(rs, 0), {}) && Yields(made, rd, With(rs, 0), {})
    {
      hide Yields, Achieves;
      made := [];
      if rd != rs {
        Emit(Mov(rd, Reg(rs)));
        made := [Mov(rd, Reg(rs))];
        CopyAchieves(rd, rs);
        Alone(Mov(rd, Reg(rs)), rd, Plus(rs, 0));
        Alone(Mov(rd, Reg(rs)), rd, With(rs, 0));
      } else {
        NothingIsNeutral(rd);
      }
    }

    /** Adds without a scratch register where one or two instructions can. */
    method TryAddImmediate(rd: Register, rs: Register, value: Word) returns (ok: bool, ghost made: seq<Instruction>)
      modifies `code
      ensures ok <==> AddFits(value)
      ensures code == old(code) + made && |made| == (if ok then AddCount(rd, rs, value) else 0) && Portable(made)
      ensures if ok then Yields(made, rd, Plus(rs, value), {}) else made == []
    {
      hide Yields, Achieves, Continues, Encodable, Encodes, Short;
      made := [];
      if value == 0 {
        made := EmitCopy(rd, rs);
        return true, made;
      }
      var imm8, rotation, negated;
      ok, imm8, rotation, negated := TryMakeOperand2AllowNegation(value);
      if ok {
        var op := Immediate(imm8, rotation);
        var ins := if negated then Sub(rd, rs, op) else Add(rd, rs, op);
        Emit(ins);
        made := [ins];
        if negated {
          SubAchieves(rd, rs, op, -value);
          Alone(ins, rd, Minus(rs, -value));
          MinusNegated(made, rd, rs, value);
        } else {
          AddAchieves(rd, rs, op, value);
          Alone(ins, rd, Plus(rs, value));
        }
      } else if Short(value) {
        made := EmitHalves(rd, rs, value, false);
        ok := true;
      } else if Short(-value) {
        made := EmitHalves(rd, rs, -value, true);
        MinusNegated(made, rd, rs, value);
        ok := true;
      }
    }

    /** Adds any constant; if the scratch register is the source, a constant that needs it is added to itself. */
    method AddImmediate(rd: Register, rs: Register, value: Word, scratch: Register) returns (ghost made: seq<Instruction>)
      modifies this
      ensures code == old(code) + made
      ensures |made| == (if AddFits(value) then AddCount(rd, rs, value) else MovCount(value, armv7, true) + 1) && (!armv7 ==> Portable(made))
      ensures AddFits(value) ==> Yields(made, rd, Plus(rs, value), {})
      ensures !AddFits(value) ==>
        Yields(made, rd, if scratch == rs then Constant(Sum(value, value)) else Plus(rs, value), {scratch})
      ensures Yields(made, rd, Plus(rs, value), {scratch}) <==> AddFits(value) || scratch != rs
    {
      hide Yields, Continues, AddFits, Sum;
      var ok;
      ok, made := TryAddImmediate(rd, rs, value);
      if !ok {
        ghost var load := MovImmediate(scratch, value, true);
        var ins := Add(rd, rs, Reg(scratch));
        Emit(ins);
        made := load + [ins];
        AddViaScratch(rd, rs, scratch, value);
        Then(load, ins, scratch, Constant(value), rd,
             if scratch == rs then Constant(Sum(value, value)) else Plus(rs, value), {scratch});
        if scratch == rs {
          NotTwice(made, rd, rs, value, {scratch});
        }
      } else {
        SpoilsLess(made, rd, Plus(rs, value), scratch);
      }
    }

    method TrySubImmediate(rd: Register, rs: Register, value: Word) returns (ok: bool, ghost made: seq<Instruction>)
      modifies `code
      ensures ok <==> AddFits(-value)
      ensures code == old(code) + made && |made| == (if ok then AddCount(rd, rs, -value) else 0) && Portable(made)
      ensures if ok then Yields(made, rd, Minus(rs, value), {}) else made == []
    {
      hide Yields, AddFits;
      ok, made := TryAddImmediate(rd, rs, -value);
      MinusIsPlus(made, rd, rs, value, {});
    }

    method SubImmediate(rd: Register, rs: Register, value: Word, scratch: Register) returns (ghost made: seq<Instruction>)
      modifies this
      ensures code == old(code) + made
      ensures |made| == (if AddFits(-value) then AddCount(rd, rs, -value) else MovCount(value, armv7, true) + 1) && (!armv7 ==> Portable(made))
      ensures AddFits(-value) ==> Yields(made, rd, Minus(rs, value), {})
      ensures !AddFits(-value) ==>
        Yields(made, rd, if scratch == rs then Constant(0) else Minus(rs, value), {scratch})
      ensures Yields(made, rd, Minus(rs, value), {scratch}) <==> AddFits(-value) || scratch != rs
    {
      hide Yields, Continues, AddFits;
      var ok;
      ok, made := TrySubImmediate(rd, rs, value);
      if !ok {
        ghost var load := MovImmediate(scratch, value, true);
        var ins := Sub(rd, rs, Reg(scratch));
        Emit(ins);
        made := load + [ins];
        SubViaScratch(rd, rs, scratch, value);
        Then(load, ins, scratch, Constant(value), rd,
             if scratch == rs then Constant(0) else Minus(rs, value), {scratch});
        if scratch == rs {
          NotNothing(made, rd, rs, value, {scratch});
        }
      } else {
        SpoilsLess(made, rd, Minus(rs, value), scratch);
      }
    }

    // -------------------------------------------------------------- masking with a constant

    /** The width of a run of ones from bit 0; otherwise a number that is zero or, with 32 bits, negative. */
    method FindLowOnes(value: Word) returns (ones: Word)
      requires value != 0xFFFF_FFFF
      ensures Positive(ones) <==> LowOnes(value)
      ensures Positive(ones) ==> ones < 32 && value == Low(ones)
    {
      hide OnesSoFar, LowOnes;
      ones := 0xFFFF_FFFF;
      var i: Word := 0;
      OnesAtStart(value);
      while i < 32
        invariant i <= 32 && OnesSoFar(value, ones, i)
        decreases 32 - i
      {
        OnesTurn(value, ones, i);
        if (value >> i) & 1 == 0 {
          if ones == 0xFFFF_FFFF {
            ones := i;
          }
        } else if ones != 0xFFFF_FFFF {
          ones := 0xFFFF_FFFE;
        }
        i := i + 1;
      }
      OnesAtEnd(value, ones);
    }

    /** How many bytes a scan of the rotations finds whose low pair is not all ones. */
    method CountClear(value: Word) returns (ops: nat)
      ensures ops == Windows(Flipped(value), 0)
    {
      hide Windows, ByteAt, Even, Flipped;
      ops := 0;
      var i: Word := 0;
      EvenZero();
      while i < 32
        invariant i <= 40 && Even(i) && ops + Windows(Flipped(value), i) == Windows(Flipped(value), 0)
        decreases if i < 32 then 32 - i else 0
      {
        RotatedStep(Flipped(value), i);
        RotatedClearStep(value, i);
        if ByteAt(value, i) & 3 != 3 {
          ops := ops + 1;
          i := i + 8;
        } else {
          i := i + 2;
        }
      }
      PastTheWord(Flipped(value), 0, i);
    }

    /** Takes the low bits if the constant is a run of ones. */
    method TryBitField(rd: Register, rs: Register, value: Word) returns (ok: bool, ghost made: seq<Instruction>)
      requires value != 0xFFFF_FFFF
      modifies `code
      ensures ok <==> LowOnes(value)
      ensures code == old(code) + made && |made| == if ok then 1 else 0
      ensures if ok then Yields(made, rd, Masked(rs, value), {}) else made == []
    {
      hide Yields, Achieves, LowOnes, Low;
      made := [];
      var ones := FindLowOnes(value);
      ok := Positive(ones);
      if ok {
        var ins := Ubfx(rd, rs, 0, ones);
        Emit(ins);
        made := [ins];
        UbfxAchieves(rd, rs, ones);
        Alone(ins, rd, Masked(rs, value));
      }
    }

    method TryAndImmediate(rd: Register, rs: Register, value: Word) returns (ok: bool, ghost made: seq<Instruction>)
      modifies `code
      ensures ok <==> AndFits(value, armv7)
      ensures code == old(code) + made && |made| == (if ok then AndCount(value, armv7) else 0) <= 4 && (!armv7 ==> Portable(made))
      ensures if ok then Yields(made, rd, Masked(rs, value), {}) else made == []
    {
      hide Yields, Achieves, Encodable, Encodes, LowOnes, Windows, Flipped;
      made := [];
      if value == 0 {
        var ins := Mov(rd, Immediate(0, 0));
        Emit(ins);
        made := [ins];
        ZeroMasks(rd, rs);
        return true, made;
      }
      var imm8, rotation, inverse;
      ok, imm8, rotation, inverse := TryMakeOperand2AllowInverse(value);
      if ok {
        var op := Immediate(imm8, rotation);
        AndAchieves(rd, rs, op, if inverse then !value else value);
        FlippedTwice(value);
        var ins := if inverse then Bic(rd, rs, op) else And(rd, rs, op);
        Emit(ins);
        made := [ins];
        Alone(ins, rd, Masked(rs, value));
        return;
      }
      NotAllOnes(value);
      if armv7 {
        ok, made := TryBitField(rd, rs, value);
        if ok {
          return;
        }
      }
      var ops := CountClear(value);
      AtMostFour(Flipped(value));
      if ops > 3 && armv7 {
        return false, [];
      }
      made := EmitBics(rd, rs, value);
      ok := true;
    }

    method AndImmediate(rd: Register, rs: Register, value: Word, scratch: Register) returns (ghost made: seq<Instruction>)
      modifies this
      ensures code == old(code) + made
      ensures |made| == (if AndFits(value, armv7) then AndCount(value, armv7) else MovCount(value, armv7, true) + 1) && (!armv7 ==> Portable(made))
      ensures AndFits(value, armv7) ==> Yields(made, rd, Masked(rs, value), {})
      ensures !AndFits(value, armv7) ==>
        Yields(made, rd, if scratch == rs then Constant(value) else Masked(rs, value), {scratch})
      ensures Yields(made, rd, Masked(rs, value), {scratch}) <==> AndFits(value, armv7) || scratch != rs
    {
      hide Yields, Continues, AndFits;
      var ok;
      ok, made := TryAndImmediate(rd, rs, value);
      if !ok {
        ghost var load := MovImmediate(scratch, value, true);
        var ins := And(rd, rs, Reg(scratch));
        Emit(ins);
        made := load + [ins];
        AndViaScratch(rd, rs, scratch, value);
        Then(load, ins, scratch, Constant(value), rd,
             if scratch == rs then Constant(value) else Masked(rs, value), {scratch});
        if scratch == rs {
          ZeroAndFits(value, armv7);
          NotUnmasked(made, rd, rs, value, {scratch});
        }
      } else {
        SpoilsLess(made, rd, Masked(rs, value), scratch);
      }
    }

    // -------------------------------------------------------------- setting the bits of a constant

    method TryOrImmediate(rd: Register, rs: Register, value: Word) returns (ok: bool, ghost made: seq<Instruction>)
      modifies `code
      ensures ok <==> OrFits(value, armv7)
      ensures code == old(code) + made && |made| == (if ok then OrCount(rd, rs, value) else 0) <= 4 && Portable(made)
      ensures if ok then Yields(made, rd, With(rs, value), {}) else made == []
    {
      hide Yields, Achieves, Encodable, Encodes, Windows;
      made := [];
      if value == 0 {
        made := EmitCopy(rd, rs);
        return true, made;
      }
      var imm8, rotation;
      ok, imm8, rotation := TryMakeOperand2(value);
      if ok {
        var op := Immediate(imm8, rotation);
        var ins := Orr(rd, rs, op);
        Emit(ins);
        made := [ins];
        OrrAchieves(rd, rs, op, value);
        Alone(ins, rd, With(rs, value));
        return;
      }
      var ops := CountSet(value);
      AtMostFour(value);
      var either, _, _, _ := TryMakeOperand2AllowInverse(value);
      if either && ops >= 3 {
        return false, [];
      } else if ops > 3 && armv7 {
        return false, [];
      }
      made := EmitOrs(rd, rs, value);
      ok := true;
    }

    method OrImmediate(rd: Register, rs: Register, value: Word, scratch: Register) returns (ghost made: seq<Instruction>)
      modifies this
      ensures code == old(code) + made
      ensures |made| == (if OrFits(value, armv7) then OrCount(rd, rs, value) else MovCount(value, armv7, true) + 1) && (!armv7 ==> Portable(made))
      ensures OrFits(value, armv7) ==> Yields(made, rd, With(rs, value), {})
      ensures !OrFits(value, armv7) ==>
        Yields(made, rd, if scratch == rs then Constant(value) else With(rs, value), {scratch})
      ensures Yields(made, rd, With(rs, value), {scratch}) <==> OrFits(value, armv7) || scratch != rs || value == 0xFFFF_FFFF
    {
      hide Yields, Continues, OrFits;
      var ok;
      ok, made := TryOrImmediate(rd, rs, value);
      if !ok {
        ghost var load := MovImmediate(scratch, value, true);
        var ins := Orr(rd, rs, Reg(scratch));
        Emit(ins);
        made := load + [ins];
        OrrViaScratch(rd, rs, scratch, value);
        Then(load, ins, scratch, Constant(value), rd,
             if scratch == rs then Constant(value) else With(rs, value), {scratch});
        if scratch == rs {
          if value == 0xFFFF_FFFF {
            AllOnesAnyway(made, rd, rs, {scratch});
          } else {
            NotWithout(made, rd, rs, value, {scratch});
          }
        }
      } else {
        SpoilsLess(made, rd, With(rs, value), scratch);
      }
    }

    // -------------------------------------------------------------- comparing with a constant

    /** Sets the flags of the comparison, also where the negated constant is added instead. */
    method TryCmpImmediate(rs: Register, value: Word) returns (ok: bool, ghost made: seq<Instruction>)
      modifies `code
      ensures ok <==> Encodable(value) || Encodable(-value)
      ensures code == old(code) + made && |made| == (if ok then 1 else 0) && Portable(made)
      ensures if ok then Compares(made, rs, value, {}) else made == []
    {
      hide Compares, Encodable, Encodes;
      made := [];
      var imm8, rotation, negated;
      ok, imm8, rotation, negated := TryMakeOperand2AllowNegation(value);
      if ok {
        var op := Immediate(imm8, rotation);
        var ins := if negated then Cmn(rs, op) else Cmp(rs, op);
        Emit(ins);
        made := [ins];
        if negated {
          SelfNegatedEncodable();
          CmnCompares(rs, op, value);
        } else {
          CmpCompares(rs, op, value);
        }
      }
    }

    /** If the scratch register is the one compared, a constant that needs it is compared with itself. */
    method CmpImmediate(rs: Register, value: Word, scratch: Register) returns (ghost made: seq<Instruction>)
      modifies this
      ensures code == old(code) + made
      ensures |made| == (if Encodable(value) || Encodable(-value) then 1 else MovCount(value, armv7, true) + 1) && (!armv7 ==> Portable(made))
      ensures Encodable(value) || Encodable(-value) ==> Compares(made, rs, value, {})
      ensures !Encodable(value) && !Encodable(-value) ==>
        if scratch == rs then AlwaysEqual(made) else Compares(made, rs, value, {scratch})
      ensures Compares(made, rs, value, {scratch}) <==> Encodable(value) || Encodable(-value) || scratch != rs
    {
      hide Compares, Yields, Encodable, AlwaysEqual;
      var ok;
      ok, made := TryCmpImmediate(rs, value);
      if !ok {
        ghost var load := MovImmediate(scratch, value, true);
        var ins := Cmp(rs, Reg(scratch));
        Emit(ins);
        made := load + [ins];
        if scratch != rs {
          CmpViaScratch(load, rs, scratch, value);
        } else {
          CmpWithItself(load, rs, value);
          NotAlwaysEqual(made, rs, value, {scratch});
        }
      } else {
        ComparesSpoilsLess(made, rs, value, scratch);
      }
    }
  }

  // ---------------------------------------------------------------- comparing

  /** Whatever the registers hold, the outcome is "equal". */
  ghost predicate AlwaysEqual(made: seq<Instruction>) {
    AllLegal(made) && forall cpu: Cpu :: Run(made, cpu).flags.zero
  }

  /** Alone, the instruction sets the flags of the comparison. */
  lemma ComparesAlone(ins: Instruction, rs: Register, value: Word)
    requires Legal(ins) && forall cpu: Cpu :: Compared(cpu, Step(ins, cpu), rs, value, {})
    ensures Compares([ins], rs, value, {})
  {
    hide Compared, Step, Legal;
    forall cpu: Cpu
      ensures AllLegal([ins]) && Compared(cpu, Run([ins], cpu), rs, value, {})
    {
      RunSnoc([], ins, cpu);
      assert [] + [ins] == [ins];
    }
  }

  lemma CmpCompares(rs: Register, op: Operand2, value: Word)
    requires Holds(op, value)
    ensures Compares([Cmp(rs, op)], rs, value, {})
  {
    hide ImmediateValue, Compares, CmpFlags, Run;
    ComparesAlone(Cmp(rs, op), rs, value);
  }

  lemma CmnCompares(rs: Register, op: Operand2, value: Word)
    requires Holds(op, -value) && value != 0 && value != 0x8000_0000
    ensures Compares([Cmn(rs, op)], rs, value, {})
  {
    hide ImmediateValue, Compares, CmpFlags, CmnFlags, Run;
    forall x: Word
      ensures CmnFlags(x, -value) == CmpFlags(x, value)
    {
      CmnOfNegation(x, value);
    }
    CmnStep(rs, op, -value, value);
    ComparesAlone(Cmn(rs, op), rs, value);
  }

  lemma CmnStep(rs: Register, op: Operand2, negated: Word, value: Word)
    requires Holds(op, negated) && forall x: Word :: CmnFlags(x, negated) == CmpFlags(x, value)
    ensures Legal(Cmn(rs, op)) && forall cpu: Cpu :: Compared(cpu, Step(Cmn(rs, op), cpu), rs, value, {})
  {
    hide ImmediateValue, CmpFlags, CmnFlags;
  }

  lemma CmpViaScratch(load: seq<Instruction>, rs: Register, scratch: Register, value: Word)
    requires Yields(load, scratch, Constant(value), {}) && scratch != rs
    ensures Compares(load + [Cmp(rs, Reg(scratch))], rs, value, {scratch})
  {
    hide CmpFlags, Leaves, Compared, Step, Run;
    var ins := Cmp(rs, Reg(scratch));
    assert AllLegal(load + [ins]);
    forall cpu: Cpu
      ensures Compared(cpu, Run(load + [ins], cpu), rs, value, {scratch})
    {
      CmpStep(cpu, Run(load, cpu), rs, scratch, value);
      RunSnoc(load, ins, cpu);
    }
  }

  lemma CmpStep(cpu: Cpu, between: Cpu, rs: Register, scratch: Register, value: Word)
    requires Leaves(cpu, between, scratch, Constant(value), {}) && scratch != rs
    ensures Legal(Cmp(rs, Reg(scratch)))
    ensures Compared(cpu, Step(Cmp(rs, Reg(scratch)), between), rs, value, {scratch})
  {
    hide CmpFlags;
  }

  lemma CmpWithItself(load: seq<Instruction>, rs: Register, value: Word)
    requires Yields(load, rs, Constant(value), {})
    ensures AlwaysEqual(load + [Cmp(rs, Reg(rs))])
  {
    hide CmpFlags;
    var ins := Cmp(rs, Reg(rs));
    forall cpu: Cpu
      ensures AllLegal(load + [ins]) && Run(load + [ins], cpu).flags.zero
    {
      RunSnoc(load, ins, cpu);
      EqualToItself(Run(load, cpu).regs[rs]);
    }
  }

  lemma NotAlwaysEqual(made: seq<Instruction>, rs: Register, value: Word, spoiled: set<Register>)
    requires AlwaysEqual(made)
    ensures !Compares(made, rs, value, spoiled)
  {
    hide Run, CmpFlags;
    var cpu := Everywhere(value + 1);
    UnequalDiffer(value);
    assert Run(made, cpu).flags.zero;
    assert Compares(made, rs, value, spoiled) ==> Compared(cpu, Run(made, cpu), rs, value, spoiled);
  }

  lemma UnequalDiffer(value: Word)
    ensures !CmpFlags(value + 1, value).zero
  {
  }

  lemma ComparesSpoilsLess(code: seq<Instruction>, rs: Register, value: Word, scratch: Register)
    requires Compares(code, rs, value, {})
    ensures Compares(code, rs, value, {scratch})
  {
    hide Run, CmpFlags;
    forall cpu: Cpu
      ensures Compared(cpu, Run(code, cpu), rs, value, {scratch})
    {
      assert Compared(cpu, Run(code, cpu), rs, value, {});
    }
  }

  lemma EqualToItself(x: Word)
    ensures CmpFlags(x, x).zero
  {
  }

  // ---------------------------------------------------------------- small facts about constants

  predicate Positive(x: Word) {
    0 < x < 0x8000_0000
  }

  /** Behind bit `i`: ones only, or ones up to a bit, or a one above a zero. */
  ghost predicate OnesSoFar(value: Word, ones: Word, i: Word) {
    if ones == 0xFFFF_FFFF then value & Low(i) == Low(i)
    else if ones == 0xFFFF_FFFE then Broken(value & Low(i))
    else ones < i && ones < 32 && value & Low(i) == Low(ones)
  }

  /** Not a run of ones from bit 0. */
  predicate Broken(x: Word) {
    x & (x + 1) != 0
  }

  lemma OnesAtStart(value: Word)
    ensures OnesSoFar(value, 0xFFFF_FFFF, 0)
  {
  }

  lemma OnesTurn(value: Word, ones: Word, i: Word)
    requires i < 32 && OnesSoFar(value, ones, i)
    ensures
      var next :=
        if (value >> i) & 1 == 0 then (if ones == 0xFFFF_FFFF then i else ones)
        else if ones != 0xFFFF_FFFF then 0xFFFF_FFFE else ones;
      OnesSoFar(value, next, i + 1)
  {
  }

  lemma OnesAtEnd(value: Word, ones: Word)
    requires OnesSoFar(value, ones, 32) && value != 0xFFFF_FFFF
    ensures Positive(ones) <==> LowOnes(value)
    ensures Positive(ones) ==> ones < 32 && value == Low(ones)
  {
    forall width: Word | 1 <= width < 32
      ensures !Broken(Low(width)) && Low(width) != 0
    {
    }
    assert value & Low(32) == value;
    if Positive(ones) {
      assert 1 <= ones < 32 && value == Low(ones);
    }
  }

  lemma ZeroMasks(rd: Register, rs: Register)
    ensures Yields([Mov(rd, Immediate(0, 0))], rd, Masked(rs, 0), {})
  {
    hide Yields, Achieves, Both;
    forall a: Word
      ensures Both(a, 0) == 0
    {
      NothingBoth(a);
    }
    ZeroMoves(rd, rs);
    Alone(Mov(rd, Immediate(0, 0)), rd, Masked(rs, 0));
  }

  lemma ZeroMoves(rd: Register, rs: Register)
    requires forall a: Word :: Both(a, 0) == 0
    ensures Achieves(Mov(rd, Immediate(0, 0)), rd, Masked(rs, 0))
  {
    hide Both;
  }

  lemma NothingBoth(a: Word)
    ensures Both(a, 0) == 0
  {
  }

  lemma NothingIsNeutral(rd: Register)
    ensures Yields([], rd, Plus(rd, 0), {}) && Yields([], rd, With(rd, 0), {})
  {
    hide Sum, Either;
    forall a: Word
      ensures Sum(a, 0) == a && Either(a, 0) == a
    {
      NeutralZero(a);
    }
  }

  lemma ZeroAndFits(value: Word, armv7: bool)
    requires !AndFits(value, armv7)
    ensures value != 0
  {
  }

  // ---------------------------------------------------------------- a constant that needs the scratch register

  const STUBBORN: Word := 0x1234_5678

  lemma StubbornRotations()
    ensures NoneBelow(STUBBORN, 16)
  {
    assert NoneBelow(STUBBORN, 2);
    assert NoneBelow(STUBBORN, 4);
    assert NoneBelow(STUBBORN, 6);
    assert NoneBelow(STUBBORN, 8);
    assert NoneBelow(STUBBORN, 10);
    assert NoneBelow(STUBBORN, 12);
    assert NoneBelow(STUBBORN, 14);
  }

  lemma StubbornComplement()
    ensures NoneBelow(!STUBBORN, 16)
  {
    assert NoneBelow(!STUBBORN, 2);
    assert NoneBelow(!STUBBORN, 4);
    assert NoneBelow(!STUBBORN, 6);
    assert NoneBelow(!STUBBORN, 8);
    assert NoneBelow(!STUBBORN, 10);
    assert NoneBelow(!STUBBORN, 12);
    assert NoneBelow(!STUBBORN, 14);
  }

  lemma StubbornNegation()
    ensures NoneBelow(-STUBBORN, 16)
  {
    assert NoneBelow(-STUBBORN, 2);
    assert NoneBelow(-STUBBORN, 4);
    assert NoneBelow(-STUBBORN, 6);
    assert NoneBelow(-STUBBORN, 8);
    assert NoneBelow(-STUBBORN, 10);
    assert NoneBelow(-STUBBORN, 12);
    assert NoneBelow(-STUBBORN, 14);
  }

  lemma StubbornWindows()
    ensures Windows(STUBBORN, 0) == 4 && Windows(!STUBBORN, 0) == 4
  {
    hide Windows;
    WindowsStep(STUBBORN, 0);
    WindowsStep(STUBBORN, 2);
    WindowsStep(STUBBORN, 10);
    WindowsStep(STUBBORN, 18);
    WindowsStep(STUBBORN, 26);
    WindowsStep(STUBBORN, 28);
    NoMoreWindows(STUBBORN, 36);
    WindowsStep(!STUBBORN, 0);
    WindowsStep(!STUBBORN, 8);
    WindowsStep(!STUBBORN, 16);
    WindowsStep(!STUBBORN, 24);
    NoMoreWindows(!STUBBORN, 32);
  }

  lemma StubbornNotOnes()
    ensures !LowOnes(STUBBORN)
  {
    forall width: Word | 1 <= width < 32
      ensures STUBBORN != Low(width)
    {
    }
  }

  /** No operation takes this constant without the scratch register on ARMv7; an older processor cannot add or compare it. */
  lemma StubbornConstant()
    ensures !AddFits(STUBBORN) && !AddFits(-STUBBORN) && !AndFits(STUBBORN, true) && !OrFits(STUBBORN, true)
    ensures !Encodable(STUBBORN) && !Encodable(-STUBBORN)
  {
    hide Encodable, Windows, LowOnes, NoneBelow;
    StubbornRotations();
    StubbornComplement();
    StubbornNegation();
    NoRotation(STUBBORN);
    NoRotation(!STUBBORN);
    NoRotation(-STUBBORN);
    StubbornWindows();
    StubbornNotOnes();
    assert Flipped(STUBBORN) == !STUBBORN;
    assert -(-STUBBORN) == STUBBORN;
  }

  lemma NotAllOnes(value: Word)
    requires !Encodable(!value)
    ensures value != 0xFFFF_FFFF && Flipped(value) != 0
  {
    SelfNegatedEncodable();
  }

  lemma HighAndLow(value: Word)
    requires Short(value)
    ensures Encodes((value >> 8) & 0xFF, 12, value & 0xFF00)
    ensures Encodes(value & 0xFF, 0, value & 0xFF)
    ensures Sum(value & 0xFF00, value & 0xFF) == value
  {
  }

  lemma MinusNegated(code: seq<Instruction>, rd: Register, rs: Register, value: Word)
    requires Yields(code, rd, Minus(rs, -value), {})
    ensures Yields(code, rd, Plus(rs, value), {})
  {
    hide Yields;
    MinusIsPlus(code, rd, rs, -value, {});
    NegatedTwice(value);
  }

  lemma NegatedTwice(value: Word)
    ensures -(-value) == value
  {
  }

  lemma OrrStep(made: seq<Instruction>, ins: Instruction, rd: Register, rs: Register, op: Operand2, first: bool,
                mask: Word)
    requires op.Immediate? && ImmediateOk(op.imm8, op.rotation)
    requires ins == Orr(rd, if first then rs else rd, op)
    requires if first then made == [] && mask == 0 else Yields(made, rd, With(rs, mask), {})
    ensures Yields(made + [ins], rd, With(rs, Either(mask, ImmediateValue(op.imm8, op.rotation))), {})
  {
    hide Yields, Achieves, Continues, ImmediateValue, Either;
    var taken := ImmediateValue(op.imm8, op.rotation);
    if first {
      OrrAchieves(rd, rs, op, taken);
      EitherNothing(taken);
      Alone(ins, rd, With(rs, taken));
      assert made + [ins] == [ins];
    } else {
      OrrContinues(rd, rs, op, mask, taken);
      Then(made, ins, rd, With(rs, mask), rd, With(rs, Either(mask, taken)), {});
    }
  }

  /** The code so far clears the bits of the mask; nothing was emitted before the first. */
  ghost predicate Clearing(made: seq<Instruction>, rd: Register, rs: Register, first: bool, mask: Word) {
    Portable(made) && if first then made == [] && mask == 0 else Yields(made, rd, Masked(rs, Flipped(mask)), {})
  }

  lemma ClearingStarts(rd: Register, rs: Register)
    ensures Clearing([], rd, rs, true, 0)
  {
  }

  /** A constant with bits to clear clears some. */
  lemma ClearingEnds(made: seq<Instruction>, rd: Register, rs: Register, first: bool, mask: Word)
    requires Clearing(made, rd, rs, first, mask) && mask != 0
    ensures Portable(made) && Yields(made, rd, Masked(rs, Flipped(mask)), {})
  {
    hide Yields;
  }

  lemma BicStep(made: seq<Instruction>, ins: Instruction, rd: Register, rs: Register, op: Operand2, first: bool,
                mask: Word)
    requires op.Immediate? && ImmediateOk(op.imm8, op.rotation)
    requires ins == Bic(rd, if first then rs else rd, op)
    requires Clearing(made, rd, rs, first, mask)
    ensures Clearing(made + [ins], rd, rs, false, Either(mask, ImmediateValue(op.imm8, op.rotation)))
  {
    PortableMore(made, ins);
    hide Yields, Achieves, Continues, ImmediateValue, Either, Flipped, Both;
    var taken := ImmediateValue(op.imm8, op.rotation);
    if first {
      AndAchieves(rd, rs, op, taken);
      EitherNothing(taken);
      Alone(ins, rd, Masked(rs, Flipped(taken)));
      assert made + [ins] == [ins];
    } else {
      BicContinues(rd, rs, op, Flipped(mask), taken);
      FlippedEither(mask, taken);
      Then(made, ins, rd, Masked(rs, Flipped(mask)), rd, Masked(rs, Both(Flipped(mask), Flipped(taken))), {});
    }
  }

  lemma FlippedEither(a: Word, b: Word)
    ensures Both(Flipped(a), Flipped(b)) == Flipped(Either(a, b))
  {
  }

  lemma FlippedBack(value: Word)
    ensures Flipped(Flipped(value)) == value
  {
  }

  lemma EvenZero()
    ensures Even(0)
  {
  }

  lemma OrStep(made: seq<Instruction>, ins: Instruction, reg: Register, op: Operand2, first: bool, mask: Word)
    requires op.Immediate? && ImmediateOk(op.imm8, op.rotation)
    requires if first then made == [] && mask == 0 && ins == Mov(reg, op)
             else Yields(made, reg, Constant(mask), {}) && ins == Orr(reg, reg, op)
    ensures Yields(made + [ins], reg, Constant(Either(mask, ImmediateValue(op.imm8, op.rotation))), {})
  {
    hide Yields, Achieves, Continues, ImmediateValue, Either;
    var taken := ImmediateValue(op.imm8, op.rotation);
    if first {
      MovAchieves(reg, op, taken);
      EitherNothing(taken);
      Alone(ins, reg, Constant(taken));
      assert made + [ins] == [ins];
    } else {
      OrrContinues(reg, reg, op, mask, taken);
      Then(made, ins, reg, Constant(mask), reg, Constant(Either(mask, taken)), {});
    }
  }

  lemma AtTheStart(value: Word)
    ensures Collected(value, 0, 2 * 0) && Collected(value, 0, 0) && Shifted(value, 0) == value
  {
  }

  lemma LowHalf(value: Word)
    ensures value & 0xFFFF <= 0xFFFF
    ensures value & 0xFFFF_0000 == 0 ==> value & 0xFFFF == value
  {
  }

  lemma FlippedTwice(value: Word)
    ensures Flipped(!value) == value
  {
  }
}
