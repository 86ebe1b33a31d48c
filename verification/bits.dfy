/** Bit reversal and the division facts it needs. */
module Bits {
  import opened Powers

  lemma {:induction false} QuotientUnique(p: int, q: int, r: int, q': int, r': int)
    requires p > 0 && q * p + r == q' * p + r' && 0 <= r < p && 0 <= r' < p
    ensures q == q' && r == r'
  {
    assert (q - q') * p == q * p - q' * p;
    if q > q' {
      AtLeastOnce(q - q', p);
    } else if q < q' {
      assert (q' - q) * p == q' * p - q * p;
      AtLeastOnce(q' - q, p);
    }
  }

  lemma {:induction false} AtLeastOnce(d: int, p: int)
    requires d >= 1 && p >= 0
    ensures d * p >= p
  {
    assert d * p == (d - 1) * p + p && (d - 1) * p >= 0;
  }

  lemma {:induction false} CancelFactor(x: int, p: int, q: int)
    requires q > 0
    ensures x * q <= p * q <==> x <= p
    ensures x * q < p * q <==> x < p
  {
    assert (x - p) * q == x * q - p * q;
    if x > p {
      AtLeastOnce(x - p, q);
    } else if x < p {
      assert (p - x) * q == p * q - x * q;
      AtLeastOnce(p - x, q);
    }
  }

  lemma {:induction false} Euclid(x: int, p: int) returns (q: int, r: int)
    requires p > 0
    ensures q == x / p && r == x % p && x == q * p + r && 0 <= r < p
    ensures x >= 0 ==> q >= 0
  {
    q, r := x / p, x % p;
  }

  lemma {:induction false} QuotientNonnegative(x: int, p: int)
    requires x >= 0 && p > 0
    ensures x / p >= 0
  {
    var q, r := Euclid(x, p);
  }

  lemma {:induction false} DivModUnique(x: int, p: int, q: int, r: int)
    requires p > 0 && x == q * p + r && 0 <= r < p
    ensures x / p == q && x % p == r
  {
    var q', r' := Euclid(x, p);
    QuotientUnique(p, q, r, q', r');
  }

  lemma {:induction false} ModOfProduct(b: int, p: int, d: int)
    requires p > 0 && d > 0
    ensures p * d > 0 && b % (p * d) % p == b % p
  {
    assert p * d > 0;
    var h, m := Euclid(b, p * d);
    var q, r := Euclid(m, p);
    assert h * (p * d) == (h * d) * p;
    assert (h * d + q) * p == (h * d) * p + q * p;
    DivModUnique(b, p, h * d + q, r);
  }

  /** Reducing modulo a large power of two does not change the lower bits. */
  lemma {:induction false} ModMod(b: nat, k: nat, n: nat)
    requires k <= n
    ensures b % Pow2(n) % Pow2(k) == b % Pow2(k)
  {
    Pow2Add(k, n - k);
    ModOfProduct(b, Pow2(k), Pow2(n - k));
  }

  /** The lowest `n` bits of `x` in opposite order. */
  function Rev(x: nat, n: nat): (r: nat)
    ensures r < Pow2(n)
    decreases n
  {
    if n == 0 then 0 else (x % 2) * Pow2(n - 1) + Rev(x / 2, n - 1)
  }

  /** Reversing swaps the halves of a bit string and reverses each. */
  lemma {:induction false} RevSplit(hi: nat, lo: nat, k: nat, n: nat)
    requires k <= n && lo < Pow2(k)
    ensures Rev(hi * Pow2(k) + lo, n) == Rev(lo, k) * Pow2(n - k) + Rev(hi, n - k)
    decreases k
  {
    hide Rev, Pow2;
    if k == 0 {
      SplitNone(hi, lo, n);
    } else {
      var p := Pow2(k - 1);
      var x := hi * Pow2(k) + lo;
      Pow2Double(k - 1);
      Halves(hi, lo, p);
      RevSplit(hi, lo / 2, k - 1, n - 1);
      Pow2Add(k - 1, n - k);
      assert k - 1 + (n - k) == n - 1;
      RevUnfold(lo, k);
      RevUnfold(x, n);
      Distribute(lo % 2, p, Rev(lo / 2, k - 1), Pow2(n - k));
    }
  }

  lemma SplitNone(hi: nat, lo: nat, n: nat)
    requires lo < Pow2(0)
    ensures hi * Pow2(0) + lo == hi && Rev(lo, 0) * Pow2(n) == 0
  {
    assert Pow2(0) == 1;
  }

  lemma Halves(hi: nat, lo: nat, p: nat)
    ensures (hi * (2 * p) + lo) % 2 == lo % 2 && (hi * (2 * p) + lo) / 2 == hi * p + lo / 2
  {
    assert hi * (2 * p) == 2 * (hi * p);
  }

  lemma {:induction false} Distribute(a: nat, p: nat, b: nat, q: nat)
    ensures (a * p + b) * q == a * (p * q) + b * q
  {
    assert (a * p) * q == a * (p * q);
  }

  lemma {:induction false} RevRev(x: nat, n: nat)
    ensures Rev(Rev(x, n), n) == x % Pow2(n)
    decreases n
  {
    hide Rev;
    if n == 0 {
      RevNone(Rev(x, n));
    } else {
      var y := Rev(x / 2, n - 1);
      RevRev(x / 2, n - 1);
      RevUnfold(x, n);
      RevSplit(x % 2, y, n - 1, n);
      RevOneBit(x % 2);
      ModDouble(x, Pow2(n - 1));
      hide Pow2;
      Pow2Double(0);
      Pow2Double(n - 1);
    }
  }

  lemma {:induction false} RevNone(x: nat)
    ensures Rev(x, 0) == 0 && x % Pow2(0) == 0
  {
    assert Pow2(0) == 1;
  }

  lemma {:induction false} RevUnfold(x: nat, n: nat)
    requires n > 0
    ensures Rev(x, n) == (x % 2) * Pow2(n - 1) + Rev(x / 2, n - 1)
  {
  }

  lemma {:induction false} RevOneBit(b: nat)
    requires b < 2
    ensures Rev(b, 1) == b
  {
    assert Rev(b / 2, 0) == 0;
  }

  lemma {:induction false} ModDouble(x: nat, p: nat)
    requires p > 0
    ensures x % (2 * p) == 2 * (x / 2 % p) + x % 2
  {
    var h, l := Euclid(x / 2, p);
    assert h * (2 * p) == 2 * (h * p);
    DivModUnique(x, 2 * p, h, 2 * l + x % 2);
  }

  lemma {:induction false} RevInjective(x: nat, y: nat, n: nat)
    requires x < Pow2(n) && y < Pow2(n) && Rev(x, n) == Rev(y, n)
    ensures x == y
  {
    RevRev(x, n);
    RevRev(y, n);
    DivModUnique(x, Pow2(n), 0, x);
    DivModUnique(y, Pow2(n), 0, y);
  }

  /** The first `k` bits of a reversed `n`-bit number are its reversed upper `k` bits. */
  lemma {:induction false} RevPrefix(x: nat, k: nat, n: nat)
    requires k <= n
    ensures Rev(x, n) % Pow2(k) == Rev(x / Pow2(n - k), k)
  {
    var h, l := Euclid(x, Pow2(n - k));
    var p := Pow2(k);
    RevSplit(h, l, n - k, n);
    DivModUnique(Rev(x, n), p, Rev(l, n - k), Rev(h, k));
  }
}
