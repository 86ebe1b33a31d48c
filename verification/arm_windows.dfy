/** Cutting a constant into bytes at even bit positions, from the lowest set bit pair upwards. */
module ArmWindows {
  import opened ArmOperands
  import opened ArmMachine

  predicate PairAt(value: Word, i: Word) {
    (value >> (if i < 32 then i else 0)) & 3 != 0
  }

  predicate Even(i: Word) {
    i & 1 == 0
  }

  /** The lowest set pair from position `i` on, 32 if there is none. */
  ghost function FirstPair(value: Word, i: Word): (r: Word)
    ensures r <= 32 && (r < 32 ==> i <= r)
    decreases if i < 32 then 32 - i else 0
  {
    if i >= 32 then 32 else if PairAt(value, i) then i else FirstPair(value, i + 2)
  }

  /** How many bytes the greedy cut takes from position `i` on. */
  ghost function Windows(value: Word, i: Word): nat
    decreases if i < 32 then 32 - i else 0
  {
    if FirstPair(value, i) >= 32 then 0 else 1 + Windows(value, FirstPair(value, i) + 8)
  }

  lemma WindowsStep(value: Word, i: Word)
    requires i < 32
    ensures Windows(value, i) == if PairAt(value, i) then 1 + Windows(value, i + 8) else Windows(value, i + 2)
  {
    hide PairAt;
  }

  lemma NoMoreWindows(value: Word, i: Word)
    requires i >= 32
    ensures Windows(value, i) == 0
  {
  }

  /** `mask` is a part of the value that holds all its bits below `i`. */
  ghost predicate Collected(value: Word, mask: Word, i: Word) {
    Holding(value, mask, Low(i))
  }

  ghost predicate Holding(value: Word, mask: Word, bits: Word) {
    mask & !value == 0 && value & bits & !mask == 0
  }

  ghost predicate Within(above: Word, below: Word, byte: Word) {
    above & !below & !byte == 0
  }

  lemma AllCollected(value: Word, mask: Word, i: Word)
    requires Collected(value, mask, i) && i >= 32
    ensures mask == value
  {
  }

  lemma SkipPair(value: Word, mask: Word, i: Word)
    requires Collected(value, mask, i) && i < 32 && Even(i) && !PairAt(value, i)
    ensures Collected(value, mask, i + 2) && Even(i + 2)
  {
  }

  /** The byte that a rotation brings down, and the rotation that puts it back. */
  function ByteAt(value: Word, i: Word): Word
    requires i < 32
  {
    Rotr(value, i) & 0xFF
  }

  function BackRotation(i: Word): Word
    requires i < 32
  {
    if i == 0 then 0 else 16 - (i >> 1)
  }

  lemma RotatedPair(value: Word, i: Word)
    requires i < 32 && Even(i)
    ensures ByteAt(value, i) & 3 != 0 <==> PairAt(value, i)
  {
  }

  lemma RotatedClearPair(value: Word, i: Word)
    requires i < 32 && Even(i)
    ensures ByteAt(value, i) & 3 != 3 <==> PairAt(Flipped(value), i)
  {
  }

  lemma RotatedComplement(value: Word, i: Word)
    requires i < 32
    ensures !ByteAt(value, i) & 0xFF == ByteAt(Flipped(value), i)
  {
    hide ByteAt;
    ByteOfComplement(value, i);
  }

  lemma ByteOfComplement(value: Word, i: Word)
    requires i < 32
    ensures !ByteAt(value, i) & 0xFF == ByteAt(!value, i)
  {
  }

  /** The byte may take bits from the other end of the word along; it stays a part of the value. */
  lemma TakeByte(value: Word, mask: Word, i: Word)
    requires Collected(value, mask, i) && i < 32 && Even(i)
    ensures ImmediateOk(ByteAt(value, i), BackRotation(i)) && Even(i + 8)
    ensures Collected(value, Either(mask, ImmediateValue(ByteAt(value, i), BackRotation(i))), i + 8)
  {
    hide Collected, Either, Both, Low, ImmediateValue, ByteAt, BackRotation, Rotl, ImmediateOk;
    RotatedBack(value, i);
    TakeWindow(value, mask, i);
  }

  lemma RotatedBack(value: Word, i: Word)
    requires i < 32 && Even(i)
    ensures ImmediateOk(ByteAt(value, i), BackRotation(i)) && Even(i + 8)
    ensures ImmediateValue(ByteAt(value, i), BackRotation(i)) == Both(value, Rotl(0xFF, i))
  {
  }

  lemma TakeWindow(value: Word, mask: Word, i: Word)
    requires Collected(value, mask, i) && i < 32
    ensures Collected(value, Either(mask, Both(value, Rotl(0xFF, i))), i + 8)
  {
    hide Low, Rotl, Holding, Within, Either, Both;
    EightMore(i);
    Absorb(value, mask, Low(i), Low(i + 8), Rotl(0xFF, i));
  }

  lemma EightMore(i: Word)
    requires i < 32
    ensures Within(Low(i + 8), Low(i), Rotl(0xFF, i))
  {
  }

  lemma Absorb(value: Word, mask: Word, below: Word, above: Word, byte: Word)
    requires Holding(value, mask, below) && Within(above, below, byte)
    ensures Holding(value, Either(mask, Both(value, byte)), above)
  {
  }

  // ---------------------------------------------------------------- without wrapping around

  /** Two bytes at even positions hold all set bits. */
  ghost predicate TwoBytes(value: Word, a: Word, b: Word) {
    a < 32 && b < 32 && Even(a) && Even(b) && value & !(0xFF << a) & !(0xFF << b) == 0
  }

  ghost predicate FitsTwoBytes(value: Word) {
    exists a: Word, b: Word :: TwoBytes(value, a, b)
  }

  /** A byte cut off after shifting down, and its place. */
  lemma ShiftedByte(value: Word, i: Word)
    requires i < 16
    ensures ImmediateOk((value >> (2 * i)) & 0xFF, (16 - i) & 0xF)
    ensures ImmediateValue((value >> (2 * i)) & 0xFF, (16 - i) & 0xF) == Both(value, 0xFF << (2 * i))
  {
  }

  lemma TakeShifted(value: Word, mask: Word, i: Word)
    requires Collected(value, mask, i) && i < 32
    ensures Collected(value, Either(mask, Both(value, 0xFF << i)), i + 8)
  {
    hide Low, Holding, Within, Either, Both;
    EightShifted(i);
    Absorb(value, mask, Low(i), Low(i + 8), 0xFF << i);
  }

  lemma EightShifted(i: Word)
    requires i < 32
    ensures Within(Low(i + 8), Low(i), 0xFF << i)
  {
  }

  lemma {:induction false} FirstPairPlace(value: Word, i: Word)
    requires i <= 40 && Even(i)
    ensures
      var f := FirstPair(value, i);
      f <= 32 && Even(f) && (i <= f || f == 32) && (f < 32 ==> PairAt(value, f))
    decreases if i < 32 then 32 - i else 0
  {
    hide PairAt;
    if i < 32 && !PairAt(value, i) {
      FirstPairPlace(value, i + 2);
    }
  }

  lemma {:induction false} NoneBefore(value: Word, i: Word)
    requires i <= 40 && Even(i)
    ensures NoneBetween(value, i, FirstPair(value, i))
    decreases if i < 32 then 32 - i else 0
  {
    hide PairAt, NoneBetween, Low, Even;
    if i >= 32 {
      NoneBeyond(value, i);
    } else if PairAt(value, i) {
      NoneHere(value, i);
    } else {
      EvenStep(i);
      NoneBefore(value, i + 2);
      NonePast(value, i, FirstPair(value, i + 2));
    }
  }

  /** No bit is set from `i` up to below `f`. */
  ghost predicate NoneBetween(value: Word, i: Word, f: Word) {
    value & Low(f) & !Low(i) == 0
  }

  lemma NoneBeyond(value: Word, i: Word)
    requires i >= 32
    ensures NoneBetween(value, i, 32)
  {
  }

  lemma NoneHere(value: Word, i: Word)
    ensures NoneBetween(value, i, i)
  {
  }

  lemma EvenStep(i: Word)
    requires i < 32 && Even(i)
    ensures Even(i + 2) && i + 2 <= 40
  {
  }

  lemma NonePast(value: Word, i: Word, f: Word)
    requires i < 32 && Even(i) && !PairAt(value, i) && NoneBetween(value, i + 2, f)
    ensures NoneBetween(value, i, f)
  {
  }

  /** The greedy cut needs at most two bytes exactly if two bytes suffice at all. */
  lemma GreedyIsBest(value: Word)
    ensures Windows(value, 0) <= 2 <==> FitsTwoBytes(value)
  {
    hide FirstPair, PairAt, NoneBetween, TwoBytes, FitsTwoBytes, Low;
    var p := FirstPair(value, 0);
    FirstPairPlace(value, 0);
    NoneBefore(value, 0);
    if p >= 32 {
      OneSpan(value);
    } else {
      GreedyAfterOne(value, p);
    }
  }

  lemma GreedyAfterOne(value: Word, p: Word)
    requires p < 32 && Even(p) && PairAt(value, p) && NoneBetween(value, 0, p)
    ensures Windows(value, p + 8) <= 1 <==> FitsTwoBytes(value)
  {
    hide FirstPair, PairAt, NoneBetween, TwoBytes, FitsTwoBytes, Low;
    EightOn(p);
    var q := FirstPair(value, p + 8);
    FirstPairPlace(value, p + 8);
    NoneBefore(value, p + 8);
    if q >= 32 {
      TwoSpans(value, p);
    } else {
      GreedyAfterTwo(value, p, q);
    }
  }

  lemma GreedyAfterTwo(value: Word, p: Word, q: Word)
    requires p < 32 && Even(p) && PairAt(value, p) && NoneBetween(value, 0, p)
    requires q < 32 && Even(q) && PairAt(value, q) && p + 8 <= q && NoneBetween(value, p + 8, q)
    ensures Windows(value, q + 8) == 0 <==> FitsTwoBytes(value)
  {
    hide FirstPair, PairAt, NoneBetween, TwoBytes, FitsTwoBytes, Low;
    EightOn(q);
    var r := FirstPair(value, q + 8);
    FirstPairPlace(value, q + 8);
    NoneBefore(value, q + 8);
    if r >= 32 {
      ThreeSpans(value, p, q);
    } else {
      ThreePairs(value, p, q, r);
    }
  }

  lemma EightOn(p: Word)
    requires p < 32 && Even(p)
    ensures p + 8 <= 40 && Even(p + 8)
  {
  }

  lemma OneSpan(value: Word)
    requires NoneBetween(value, 0, 32)
    ensures FitsTwoBytes(value)
  {
    assert TwoBytes(value, 0, 0);
  }

  lemma TwoSpans(value: Word, p: Word)
    requires p < 32 && Even(p) && NoneBetween(value, 0, p) && NoneBetween(value, p + 8, 32)
    ensures FitsTwoBytes(value)
  {
    assert TwoBytes(value, p, p);
  }

  lemma ThreeSpans(value: Word, p: Word, q: Word)
    requires p < 32 && Even(p) && q < 32 && Even(q)
    requires NoneBetween(value, 0, p) && NoneBetween(value, p + 8, q) && NoneBetween(value, q + 8, 32)
    ensures FitsTwoBytes(value)
  {
    assert TwoBytes(value, p, q);
  }

  /** Three set pairs at least eight bits apart do not fit into two bytes. */
  lemma ThreePairs(value: Word, p: Word, q: Word, r: Word)
    requires p < 32 && q < 32 && r < 32 && p + 8 <= q && q + 8 <= r
    requires Even(p) && Even(q) && Even(r) && PairAt(value, p) && PairAt(value, q) && PairAt(value, r)
    ensures !FitsTwoBytes(value)
  {
    hide PairAt, TwoBytes, Even;
    forall a: Word, b: Word
      ensures !TwoBytes(value, a, b)
    {
      if TwoBytes(value, a, b) {
        PairInside(value, p, a, b);
        PairInside(value, q, a, b);
        PairInside(value, r, a, b);
      }
    }
  }

  lemma PairInside(value: Word, p: Word, a: Word, b: Word)
    requires p < 32 && Even(p) && PairAt(value, p) && TwoBytes(value, a, b)
    ensures (a <= p && p - a < 8) || (b <= p && p - b < 8)
  {
  }

  // ---------------------------------------------------------------- steps over pairs of a shifted value

  function Shifted(value: Word, i: Word): Word {
    if i < 16 then value >> (2 * i) else 0
  }

  lemma ShiftOn(value: Word, i: Word)
    requires i < 16
    ensures Shifted(value, i + 1) == Shifted(value, i) >> 2
    ensures Shifted(value, i + 4) == (Shifted(value, i) >> 6) >> 2
  {
  }

  lemma ShiftedPair(value: Word, i: Word)
    requires i < 16
    ensures Shifted(value, i) & 3 != 0 <==> PairAt(value, 2 * i)
    ensures 2 * i < 32 && Even(2 * i) && 2 * i + 2 == 2 * (i + 1) && 2 * i + 8 == 2 * (i + 4)
  {
  }

  lemma PairStep(value: Word, i: Word)
    requires i < 16
    ensures Shifted(value, i) & 3 != 0 ==> Windows(value, 2 * i) == 1 + Windows(value, 2 * (i + 4))
    ensures Shifted(value, i) & 3 == 0 ==> Windows(value, 2 * i) == Windows(value, 2 * (i + 1))
  {
    hide Shifted, PairAt, Windows, Even;
    ShiftedPair(value, i);
    WindowsStep(value, 2 * i);
  }

  lemma PastThePairs(value: Word, mask: Word, i: Word)
    requires 16 <= i <= 20
    ensures Windows(value, 2 * i) == 0
    ensures Collected(value, mask, 2 * i) ==> mask == value
  {
    hide Windows, Collected;
    var k := 2 * i;
    assert k >= 32;
    NoMoreWindows(value, k);
    if Collected(value, mask, k) {
      AllCollected(value, mask, k);
    }
  }

  lemma SkipShifted(value: Word, mask: Word, i: Word)
    requires i < 16 && Collected(value, mask, 2 * i) && Shifted(value, i) & 3 == 0
    ensures Collected(value, mask, 2 * (i + 1))
  {
    hide Shifted, PairAt, Collected, Even;
    ShiftedPair(value, i);
    SkipPair(value, mask, 2 * i);
  }

  lemma TakeShiftedByte(value: Word, mask: Word, i: Word)
    requires i < 16 && Collected(value, mask, 2 * i)
    ensures ImmediateOk(Shifted(value, i) & 0xFF, (16 - i) & 0xF)
    ensures Collected(value, Either(mask, ImmediateValue(Shifted(value, i) & 0xFF, (16 - i) & 0xF)), 2 * (i + 4))
  {
    hide Collected, Even, PairAt, ImmediateValue, ImmediateOk, Either, Both;
    ShiftedPair(value, i);
    ShiftedByte(value, i);
    TakeShifted(value, mask, 2 * i);
  }

  lemma EitherNothing(value: Word)
    ensures Either(0, value) == value
  {
  }

  lemma {:induction false} NoPairInZero(i: Word)
    ensures FirstPair(0, i) == 32 && Windows(0, i) == 0
    decreases if i < 32 then 32 - i else 0
  {
    if i < 32 {
      assert !PairAt(0, i);
      NoPairInZero(i + 2);
    }
  }

  // ---------------------------------------------------------------- steps over rotated bytes

  lemma RotatedStep(value: Word, i: Word)
    requires i < 32 && Even(i)
    ensures ByteAt(value, i) & 3 != 0 ==> Windows(value, i) == 1 + Windows(value, i + 8)
    ensures ByteAt(value, i) & 3 == 0 ==> Windows(value, i) == Windows(value, i + 2)
    ensures Even(i + 2) && Even(i + 8)
  {
    hide ByteAt, PairAt, Windows;
    RotatedPair(value, i);
    WindowsStep(value, i);
  }

  /** The same cut of the complement, seen from the value. */
  lemma RotatedClearStep(value: Word, i: Word)
    requires i < 32 && Even(i)
    ensures ByteAt(value, i) & 3 != 3 <==> ByteAt(Flipped(value), i) & 3 != 0
  {
    hide ByteAt, PairAt, Flipped;
    RotatedClearPair(value, i);
    RotatedPair(Flipped(value), i);
  }

  lemma SkipRotated(value: Word, mask: Word, i: Word)
    requires i < 32 && Even(i) && Collected(value, mask, i) && ByteAt(value, i) & 3 == 0
    ensures Collected(value, mask, i + 2)
  {
    hide ByteAt, PairAt, Collected;
    RotatedPair(value, i);
    SkipPair(value, mask, i);
  }

  lemma PastTheWord(value: Word, mask: Word, i: Word)
    requires 32 <= i
    ensures Windows(value, i) == 0
    ensures Collected(value, mask, i) ==> mask == value
  {
    hide Windows, Collected;
    NoMoreWindows(value, i);
    if Collected(value, mask, i) {
      AllCollected(value, mask, i);
    }
  }

  /** A bit position that the scan over pairs comes to. */
  predicate Place(i: Word) {
    i <= 40 && Even(i)
  }

  lemma PlaceZero()
    ensures Place(0)
  {
  }

  lemma PlaceMoves(i: Word)
    requires i < 32 && Place(i)
    ensures Even(i) && Place(i + 2) && Place(i + 8)
  {
  }

  /** One turn of the cut of the complement: the byte of zeros, or a pair of ones. */
  lemma ClearTurn(value: Word, mask: Word, i: Word)
    requires i < 32 && Place(i) && Collected(Flipped(value), mask, i)
    ensures
      var bits, gone := ByteAt(value, i), Flipped(value);
      if bits & 3 != 3 then
        var cleared, rotation := !bits & 0xFF, BackRotation(i);
        && ImmediateOk(cleared, rotation) && Windows(gone, i) == 1 + Windows(gone, i + 8)
        && Collected(gone, Either(mask, ImmediateValue(cleared, rotation)), i + 8) && Place(i + 8)
      else
        Windows(gone, i) == Windows(gone, i + 2) && Collected(gone, mask, i + 2) && Place(i + 2)
  {
    hide ByteAt, BackRotation, ImmediateOk, ImmediateValue, Either, Collected, Windows, Flipped, Even, Place;
    PlaceMoves(i);
    RotatedStep(Flipped(value), i);
    RotatedClearStep(value, i);
    RotatedComplement(value, i);
    if ByteAt(value, i) & 3 != 3 {
      TakeByte(Flipped(value), mask, i);
    } else {
      SkipRotated(Flipped(value), mask, i);
    }
  }

  /** One turn of the cut without wrapping around. */
  lemma ShiftTurn(value: Word, mask: Word, i: Word)
    requires i < 16 && Collected(value, mask, 2 * i)
    ensures
      var rest := Shifted(value, i);
      if rest & 3 != 0 then
        var byte, rotation := rest & 0xFF, (16 - i) & 0xF;
        && ImmediateOk(byte, rotation) && Windows(value, 2 * i) == 1 + Windows(value, 2 * (i + 4))
        && Collected(value, Either(mask, ImmediateValue(byte, rotation)), 2 * (i + 4))
        && (rest >> 6) >> 2 == Shifted(value, i + 4)
      else
        && Windows(value, 2 * i) == Windows(value, 2 * (i + 1)) && Collected(value, mask, 2 * (i + 1))
        && rest >> 2 == Shifted(value, i + 1)
  {
    hide Shifted, ImmediateOk, ImmediateValue, Either, Collected, Windows;
    PairStep(value, i);
    ShiftOn(value, i);
    if Shifted(value, i) & 3 != 0 {
      TakeShiftedByte(value, mask, i);
    } else {
      SkipShifted(value, mask, i);
    }
  }

  // ---------------------------------------------------------------- there are never more than four bytes

  lemma AtMostOne(value: Word, i: Word)
    requires 24 <= i <= 40
    ensures Windows(value, i) <= 1
  {
    hide FirstPair;
    if FirstPair(value, i) < 32 {
      NoMoreWindows(value, FirstPair(value, i) + 8);
    }
  }

  lemma AtMostTwo(value: Word, i: Word)
    requires 16 <= i <= 40
    ensures Windows(value, i) <= 2
  {
    hide FirstPair;
    if FirstPair(value, i) < 32 {
      AtMostOne(value, FirstPair(value, i) + 8);
    }
  }

  lemma AtMostThree(value: Word, i: Word)
    requires 8 <= i <= 40
    ensures Windows(value, i) <= 3
  {
    hide FirstPair;
    if FirstPair(value, i) < 32 {
      AtMostTwo(value, FirstPair(value, i) + 8);
    }
  }

  lemma AtMostFour(value: Word)
    ensures Windows(value, 0) <= 4
  {
    hide FirstPair;
    if FirstPair(value, 0) < 32 {
      AtMostThree(value, FirstPair(value, 0) + 8);
    }
  }
}
