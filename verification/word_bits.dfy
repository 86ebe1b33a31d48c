/** The bits of a machine word held as a number, bit 0 lowest. */
module WordBits {
  import opened Powers
  import opened Bits

  const WORD_LIMIT: nat := 0x1_0000_0000

  type Word = x: int | 0 <= x < 0x1_0000_0000

  predicate TestBit(x: nat, k: nat) {
    x / Pow2(k) % 2 == 1
  }

  lemma {:induction false} Half(x: nat, k: nat)
    ensures TestBit(x, k + 1) == TestBit(x / 2, k)
    ensures TestBit(x, 0) == (x % 2 == 1)
  {
    QuotientOfHalf(x, Pow2(k));
    Pow2Double(k);
    assert Pow2(0) == 1;
  }

  lemma {:induction false} QuotientOfHalf(x: nat, p: nat)
    requires p > 0
    ensures x / (2 * p) == x / 2 / p
  {
    var q, r := Euclid(x / 2, p);
    assert q * (2 * p) == 2 * (q * p);
    DivModUnique(x, 2 * p, q, 2 * r + x % 2);
  }

  /** Shifting right moves every bit down. */
  lemma {:induction false} ShiftBit(x: nat, s: nat, k: nat)
    ensures x / Pow2(s) >= 0 && TestBit(x / Pow2(s), k) == TestBit(x, k + s)
    decreases s
  {
    hide TestBit;
    QuotientNonnegative(x, Pow2(s));
    if s == 0 {
      assert Pow2(0) == 1;
    } else {
      QuotientOfHalf(x, Pow2(s - 1));
      Pow2Double(s - 1);
      ShiftBit(x / 2, s - 1, k);
      Half(x, k + s - 1);
    }
  }

  /** A number of ones. */
  lemma {:induction false} OnesBit(m: nat, k: nat)
    ensures Pow2(m) >= 1 && TestBit(Pow2(m) - 1, k) == (k < m)
    decreases k
  {
    hide TestBit, Pow2;
    if m == 0 {
      NoBits(k);
    } else {
      Pow2Double(m - 1);
      var ones: nat := Pow2(m) - 1;
      OddHalf(Pow2(m - 1), ones);
      if k == 0 {
        Half(ones, 0);
      } else {
        OnesBit(m - 1, k - 1);
        Half(ones, k - 1);
      }
    }
  }

  lemma NoBits(k: nat)
    ensures Pow2(0) == 1 && !TestBit(0, k)
  {
    DivModUnique(0, Pow2(k), 0, 0);
  }

  lemma OddHalf(p: nat, x: nat)
    requires 1 <= p && x == 2 * p - 1
    ensures x / 2 == p - 1 && x % 2 == 1
  {
  }

  /** The complement within `n` bits. */
  lemma {:induction false} NotBit(x: nat, n: nat, k: nat)
    requires x < Pow2(n) && k < n
    ensures TestBit(Pow2(n) - 1 - x, k) == !TestBit(x, k)
    decreases n
  {
    var y: nat := Pow2(n) - 1 - x;
    Pow2Double(n - 1);
    assert y / 2 == Pow2(n - 1) - 1 - x / 2;
    if k == 0 {
      Half(x, 0);
      Half(y, 0);
    } else {
      NotBit(x / 2, n - 1, k - 1);
      Half(x, k - 1);
      Half(y, k - 1);
    }
  }

  /** Bitwise or, and bitwise and with the complement, of `n` bits. */
  function Merge(x: nat, mask: nat, on: bool, n: nat): (r: nat)
    ensures r < Pow2(n)
  {
    if n == 0 then 0
    else 2 * Merge(x / 2, mask / 2, on, n - 1) + (if mask % 2 == 1 then (if on then 1 else 0) else x % 2)
  }

  lemma {:induction false} MergeBit(x: nat, mask: nat, on: bool, n: nat, k: nat)
    requires k < n
    ensures TestBit(Merge(x, mask, on, n), k) == if TestBit(mask, k) then on else TestBit(x, k)
    decreases n
  {
    hide TestBit;
    var r := Merge(x, mask, on, n);
    if k == 0 {
      Half(r, 0);
      Half(x, 0);
      Half(mask, 0);
    } else {
      MergeBit(x / 2, mask / 2, on, n - 1, k - 1);
      Half(r, k - 1);
      Half(x, k - 1);
      Half(mask, k - 1);
    }
  }

  function Or(x: Word, mask: Word): Word {
    WordPower();
    Merge(x, mask, true, 32)
  }

  function AndNot(x: Word, mask: Word): Word {
    WordPower();
    Merge(x, mask, false, 32)
  }

  lemma {:induction false} WordPower()
    ensures Pow2(32) == WORD_LIMIT
  {
    Pow2Values();
    Pow2Add(16, 16);
  }

  function Complement(x: Word): Word {
    WORD_LIMIT - 1 - x
  }

  function ShiftRight(x: Word, s: nat): Word {
    ShiftFits(x, Pow2(s));
    x / Pow2(s)
  }

  lemma {:induction false} ShiftFits(x: nat, p: nat)
    requires p > 0
    ensures 0 <= x / p <= x
  {
    var q, r := Euclid(x, p);
    AtLeastOnce(p, q);
    assert p * q == q * p;
  }
}
