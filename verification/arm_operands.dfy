/**
 * Constants as the processor's immediate operands: a byte rotated right by an even amount
 * (ARM Architecture Reference Manual ARMv7-A/R, section A5.2.4).
 */
module ArmOperands {
  type Word = bv32

  function Rotr(a: Word, amount: Word): Word
    requires amount < 32
  {
    if amount == 0 then a else (a >> amount) | (a << (32 - amount))
  }

  function Rotl(a: Word, amount: Word): Word
    requires amount < 32
  {
    if amount == 0 then a else (a << amount) | (a >> (32 - amount))
  }

  predicate ImmediateOk(imm8: Word, rotation: Word) {
    imm8 <= 0xFF && rotation < 16
  }

  function ImmediateValue(imm8: Word, rotation: Word): Word
    requires ImmediateOk(imm8, rotation)
  {
    Rotr(imm8, 2 * rotation)
  }

  /** Some byte, rotated right by some even amount, is the constant. */
  ghost predicate Encodable(imm: Word) {
    exists imm8: Word, rotation: Word :: Encodes(imm8, rotation, imm)
  }

  ghost predicate Encodes(imm8: Word, rotation: Word, imm: Word) {
    ImmediateOk(imm8, rotation) && ImmediateValue(imm8, rotation) == imm
  }

  /** The test with the mask of one rotation. */
  predicate Fits(imm: Word, i: Word)
    requires i < 16
  {
    imm & Rotr(0xFF, 2 * i) == imm
  }

  lemma RotatingBack(imm: Word, n: Word)
    requires n < 32
    ensures Rotr(Rotl(imm, n), n) == imm
  {
    if n & 16 == 0 {
      if n & 8 == 0 {
      } else {
      }
    } else if n & 8 == 0 {
    } else {
    }
  }

  lemma FittingIsAByte(imm: Word, i: Word)
    requires i < 16 && Fits(imm, i)
    ensures Rotl(imm, 2 * i) <= 0xFF && Rotl(imm, 2 * i) & 0xFF == Rotl(imm, 2 * i)
  {
  }

  lemma FittingEncodes(imm: Word, i: Word)
    requires i < 16 && Fits(imm, i)
    ensures Encodes(Rotl(imm, 2 * i) & 0xFF, i, imm) && Encodable(imm)
  {
    hide Rotr, Rotl, Fits;
    FittingIsAByte(imm, i);
    RotatingBack(imm, 2 * i);
    assert Encodes(Rotl(imm, 2 * i) & 0xFF, i, imm);
  }

  lemma ValueFits(imm8: Word, i: Word)
    requires ImmediateOk(imm8, i)
    ensures Fits(ImmediateValue(imm8, i), i)
  {
  }

  ghost predicate NoneBelow(imm: Word, i: Word)
    requires i <= 16
    decreases i
  {
    i == 0 || (!Fits(imm, i - 1) && NoneBelow(imm, i - 1))
  }

  lemma NoneAt(imm: Word, i: Word, j: Word)
    requires j < i <= 16 && NoneBelow(imm, i)
    ensures !Fits(imm, j)
    decreases i
  {
    hide Fits;
    if j != i - 1 {
      NoneAt(imm, i - 1, j);
    }
  }

  /** No smaller rotation encodes what none below fits. */
  lemma NoSmaller(imm: Word, i: Word)
    requires i < 16 && NoneBelow(imm, i)
    ensures forall b: Word, r: Word | r < i :: !Encodes(b, r, imm)
  {
    hide Fits, Rotr, NoneBelow;
    forall b: Word, r: Word | r < i
      ensures !Encodes(b, r, imm)
    {
      if ImmediateOk(b, r) {
        ValueFits(b, r);
        NoneAt(imm, i, r);
      }
    }
  }

  /** The rotations go to the right, two bits for each step. */
  lemma Rotations()
    ensures ImmediateValue(0xFF, 0) == 0xFF && ImmediateValue(0xAB, 4) == 0xAB00_0000 && ImmediateValue(0xAB, 12) == 0xAB00
    ensures ImmediateValue(1, 1) == 0x4000_0000 && ImmediateValue(0x81, 15) == 0x204
  {
  }

  /** The search over the rotations succeeds exactly if the constant has an encoding, and then returns the one with
      the smallest rotation. */
  method TryMakeOperand2(imm: Word) returns (ok: bool, imm8: Word, rotation: Word)
    ensures ok <==> Encodable(imm)
    ensures ok ==> Encodes(imm8, rotation, imm) && forall b: Word, r: Word | r < rotation :: !Encodes(b, r, imm)
  {
    hide Rotr, Rotl, Fits, Encodes, Encodable;
    ok, imm8, rotation := false, 0, 0;
    var i: Word := 0;
    while i < 16
      invariant i <= 16
      invariant NoneBelow(imm, i)
      decreases 16 - i
    {
      if Fits(imm, i) {
        FittingEncodes(imm, i);
        NoSmaller(imm, i);
        return true, Rotl(imm, 2 * i) & 0xFF, i;
      }
      i := i + 1;
    }
    NoRotation(imm);
  }

  lemma NoRotation(imm: Word)
    requires NoneBelow(imm, 16)
    ensures !Encodable(imm)
  {
    hide Fits, Rotr, NoneBelow;
    forall b: Word, r: Word
      ensures !Encodes(b, r, imm)
    {
      if ImmediateOk(b, r) {
        ValueFits(b, r);
        NoneAt(imm, 16, r);
      }
    }
  }

  method TryMakeOperand2AllowInverse(imm: Word) returns (ok: bool, imm8: Word, rotation: Word, inverse: bool)
    ensures ok <==> Encodable(imm) || Encodable(!imm)
    ensures inverse <==> !Encodable(imm)
    ensures ok ==> Encodes(imm8, rotation, if inverse then !imm else imm)
  {
    ok, imm8, rotation := TryMakeOperand2(imm);
    inverse := !ok;
    if !ok {
      ok, imm8, rotation := TryMakeOperand2(!imm);
    }
  }

  method TryMakeOperand2AllowNegation(imm: Word) returns (ok: bool, imm8: Word, rotation: Word, negated: bool)
    ensures ok <==> Encodable(imm) || Encodable(-imm)
    ensures negated <==> !Encodable(imm)
    ensures ok ==> Encodes(imm8, rotation, if negated then -imm else imm)
  {
    ok, imm8, rotation := TryMakeOperand2(imm);
    negated := !ok;
    if !ok {
      ok, imm8, rotation := TryMakeOperand2(-imm);
    }
  }
}
