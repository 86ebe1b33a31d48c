/** Canonical Huffman codes (section 3.2.2 of RFC 1951): codes of one length are consecutive and go to the
    symbols in order; the bits of a code travel most significant first, hence bit-reversed. */
module CanonicalCode {
  import opened Powers
  import opened Bits

  /** A code length per symbol; zero marks a symbol that has no code. */
  ghost predicate Lengths(sizes: seq<nat>) {
    forall s | 0 <= s < |sizes| :: sizes[s] <= 15
  }

  /** How many symbols have codes of length `len`. */
  function Count(sizes: seq<nat>, len: nat): (c: nat)
    ensures c <= |sizes|
  {
    if sizes == [] then 0 else Count(sizes[..|sizes| - 1], len) + (if sizes[|sizes| - 1] == len then 1 else 0)
  }

  /** The smallest code of length `len`. */
  function FirstCode(sizes: seq<nat>, len: nat): nat {
    if len <= 1 then 0 else 2 * (FirstCode(sizes, len - 1) + Count(sizes, len - 1))
  }

  function CodeOf(sizes: seq<nat>, s: nat): nat
    requires s < |sizes|
  {
    FirstCode(sizes, sizes[s]) + Count(sizes[..s], sizes[s])
  }

  /** The code of `s` as the number its transmitted bits spell, first bit lowest. */
  function Transmitted(sizes: seq<nat>, s: nat): nat
    requires s < |sizes|
  {
    Rev(CodeOf(sizes, s), sizes[s])
  }

  /** The code of `s` is a prefix of the bit stream `bits` (first bit lowest). */
  predicate Starts(sizes: seq<nat>, s: nat, bits: nat) {
    s < |sizes| && sizes[s] > 0 && bits % Pow2(sizes[s]) == Transmitted(sizes, s)
  }

  ghost predicate NotOversubscribed(sizes: seq<nat>) {
    Lengths(sizes) && FirstCode(sizes, 16) <= Pow2(16)
  }

  ghost predicate CompleteCode(sizes: seq<nat>) {
    Lengths(sizes) && FirstCode(sizes, 16) == Pow2(16)
  }

  lemma {:induction false} CountAppend(sizes: seq<nat>, l: nat, len: nat)
    ensures Count(sizes + [l], len) == Count(sizes, len) + (if l == len then 1 else 0)
  {
    assert (sizes + [l])[..|sizes|] == sizes;
  }

  lemma {:induction false} CountMonotone(sizes: seq<nat>, i: nat, j: nat, len: nat)
    requires i <= j <= |sizes|
    ensures Count(sizes[..i], len) <= Count(sizes[..j], len)
    ensures i < j && sizes[i] == len ==> Count(sizes[..i], len) < Count(sizes[..j], len)
    decreases j
  {
    if i < j {
      CountMonotone(sizes, i, j - 1, len);
      assert sizes[..j][..j - 1] == sizes[..j - 1];
    }
  }

  /** The symbol that holds the `rank`-th code of its length. */
  lemma {:induction false} SymbolOfRank(sizes: seq<nat>, len: nat, rank: nat) returns (s: nat)
    requires rank < Count(sizes, len)
    ensures s < |sizes| && sizes[s] == len && Count(sizes[..s], len) == rank
  {
    var n := |sizes| - 1;
    if rank < Count(sizes[..n], len) {
      s := SymbolOfRank(sizes[..n], len, rank);
      assert sizes[..n][..s] == sizes[..s];
    } else {
      s := n;
    }
  }

  lemma {:induction false} RankBelowCount(sizes: seq<nat>, s: nat)
    requires s < |sizes|
    ensures Count(sizes[..s], sizes[s]) < Count(sizes, sizes[s])
  {
    CountMonotone(sizes, s, |sizes|, sizes[s]);
    assert sizes[..|sizes|] == sizes;
  }

  lemma {:induction false} FirstCodeStep(sizes: seq<nat>, len: nat)
    requires len >= 1
    ensures FirstCode(sizes, len + 1) == 2 * (FirstCode(sizes, len) + Count(sizes, len))
  {
  }

  lemma {:induction false} Pow2One()
    ensures Pow2(1) == 2
  {
    assert Pow2(0) == 1;
  }

  /** The codes of each length, extended to a greater length, lie below the codes of that length. */
  lemma {:induction false} FirstCodeGrows(sizes: seq<nat>, len: nat, len': nat)
    requires 1 <= len < len'
    ensures (FirstCode(sizes, len) + Count(sizes, len)) * Pow2(len' - len) <= FirstCode(sizes, len')
    decreases len'
  {
    hide FirstCode, Count, Pow2;
    var x := FirstCode(sizes, len) + Count(sizes, len);
    FirstCodeStep(sizes, len' - 1);
    if len' == len + 1 {
      Pow2One();
    } else {
      var p := Pow2(len' - 1 - len);
      FirstCodeGrows(sizes, len, len' - 1);
      Pow2Double(len' - 1 - len);
      assert x * (2 * p) == 2 * (x * p);
    }
  }

  lemma {:induction false} CodeFits(sizes: seq<nat>, len: nat)
    requires NotOversubscribed(sizes) && 1 <= len <= 15
    ensures FirstCode(sizes, len) + Count(sizes, len) <= Pow2(len)
  {
    assert FirstCode(sizes, 16) <= Pow2(16);
    hide *;
    FirstCodeGrows(sizes, len, 16);
    Pow2Add(len, 16 - len);
    CancelFactor(FirstCode(sizes, len) + Count(sizes, len), Pow2(len), Pow2(16 - len));
  }

  lemma {:induction false} CodeOfFits(sizes: seq<nat>, s: nat)
    requires NotOversubscribed(sizes) && s < |sizes| && sizes[s] > 0
    ensures CodeOf(sizes, s) < Pow2(sizes[s])
  {
    RankBelowCount(sizes, s);
    CodeFits(sizes, sizes[s]);
  }

  /** A shorter code is not the upper part of a longer one. */
  lemma {:induction false} UpperPartDiffers(sizes: seq<nat>, s: nat, t: nat)
    requires s < |sizes| && t < |sizes| && 1 <= sizes[s] < sizes[t]
    ensures CodeOf(sizes, t) / Pow2(sizes[t] - sizes[s]) > CodeOf(sizes, s)
  {
    RankBelowCount(sizes, s);
    FirstCodeGrows(sizes, sizes[s], sizes[t]);
    var a, c, d, p := FirstCode(sizes, sizes[s]) + Count(sizes, sizes[s]), CodeOf(sizes, s), CodeOf(sizes, t), Pow2(sizes[t] - sizes[s]);
    assert a * p <= d && c < a;
    hide *;
    QuotientAbove(d, p, c, a);
  }

  lemma {:induction false} QuotientAbove(d: nat, p: nat, c: nat, a: nat)
    requires p > 0 && a * p <= d && c < a
    ensures d / p > c
  {
    var q, r := Euclid(d, p);
    if q <= c {
      assert (a - q) * p == a * p - q * p;
      AtLeastOnce(a - q, p);
    }
  }

  /** No two symbols start the same bit stream. */
  lemma {:induction false} PrefixFree(sizes: seq<nat>, s: nat, t: nat, bits: nat)
    requires NotOversubscribed(sizes) && Starts(sizes, s, bits) && Starts(sizes, t, bits)
    ensures s == t
  {
    if sizes[s] > sizes[t] {
      NotPrefix(sizes, t, s, bits);
    } else if sizes[s] < sizes[t] {
      NotPrefix(sizes, s, t, bits);
    } else {
      CodeOfFits(sizes, s);
      CodeOfFits(sizes, t);
      RevInjective(CodeOf(sizes, s), CodeOf(sizes, t), sizes[s]);
      if s < t {
        CountMonotone(sizes, s, t, sizes[s]);
      } else if t < s {
        CountMonotone(sizes, t, s, sizes[s]);
      }
    }
  }

  lemma {:induction false} NotPrefix(sizes: seq<nat>, s: nat, t: nat, bits: nat)
    requires NotOversubscribed(sizes) && s < |sizes| && t < |sizes| && 1 <= sizes[s] < sizes[t]
    ensures !(Starts(sizes, s, bits) && Starts(sizes, t, bits))
  {
    if Starts(sizes, s, bits) && Starts(sizes, t, bits) {
      var k, n := sizes[s], sizes[t];
      ModMod(bits, k, n);
      RevPrefix(CodeOf(sizes, t), k, n);
      UpperPartDiffers(sizes, s, t);
      CodeOfFits(sizes, s);
      CodeOfFits(sizes, t);
      UpperPartFits(CodeOf(sizes, t), k, n);
      RevInjective(CodeOf(sizes, s), CodeOf(sizes, t) / Pow2(n - k), k);
    }
  }

  lemma {:induction false} UpperPartFits(c: nat, k: nat, n: nat)
    requires k <= n && c < Pow2(n)
    ensures c / Pow2(n - k) < Pow2(k)
  {
    hide *;
    Pow2Add(k, n - k);
    var q, r := Euclid(c, Pow2(n - k));
    CancelFactor(q, Pow2(k), Pow2(n - k));
  }

  // ---------------------------------------------------------------- complete codes decode every stream

  /** The length whose codes cover the 15-bit number `v`. */
  lemma {:induction false} CoveringLength(sizes: seq<nat>, v: nat, from: nat) returns (len: nat)
    requires CompleteCode(sizes) && v < Pow2(15) && 1 <= from <= 15
    requires v / Pow2(15 - from) >= FirstCode(sizes, from)
    ensures 1 <= len <= 15
    ensures FirstCode(sizes, len) <= v / Pow2(15 - len) < FirstCode(sizes, len) + Count(sizes, len)
    decreases 15 - from
  {
    var end := FirstCode(sizes, from) + Count(sizes, from);
    assert Pow2(0) == 1 && Pow2(16) == 2 * Pow2(15);
    assert FirstCode(sizes, 16) == 2 * (FirstCode(sizes, 15) + Count(sizes, 15));
    assert v / Pow2(0) == v;
    if v / Pow2(15 - from) < end {
      len := from;
    } else if from == 15 {
      assert false;
    } else {
      NextBit(v, 14 - from, end);
      len := CoveringLength(sizes, v, from + 1);
    }
  }

  lemma {:induction false} NextBit(v: nat, n: nat, end: nat)
    requires v / Pow2(n + 1) >= end
    ensures v / Pow2(n) >= 2 * end
  {
    var q, r := Euclid(v, Pow2(n + 1));
    var q', r' := Euclid(v, Pow2(n));
    var p := Pow2(n);
    assert Pow2(n + 1) == 2 * p;
    hide *;
    if q' < 2 * end {
      assert q * (2 * p) == (2 * q) * p;
      assert (2 * q - q') * p == (2 * q) * p - q' * p;
      AtLeastOnce(2 * q - q', p);
    }
  }

  /** With a complete code every bit stream starts with the code of some symbol. */
  lemma {:induction false} SomeSymbolStarts(sizes: seq<nat>, bits: nat) returns (s: nat)
    requires CompleteCode(sizes)
    ensures Starts(sizes, s, bits)
  {
    hide Rev, Count, Pow2, CompleteCode, Starts;
    var v := Rev(bits, 15);
    QuotientNonnegative(v, Pow2(14));
    assert FirstCode(sizes, 1) == 0;
    var len := CoveringLength(sizes, v, 1);
    var c := v / Pow2(15 - len);
    s := SymbolOfRank(sizes, len, c - FirstCode(sizes, len));
    FirstBitsReversed(bits, len, 15);
    StartsAt(sizes, s, bits);
  }

  lemma {:induction false} FirstBitsReversed(bits: nat, len: nat, n: nat)
    requires len <= n
    ensures bits % Pow2(len) == Rev(Rev(bits, n) / Pow2(n - len), len)
  {
    hide *;
    RevPrefix(Rev(bits, n), len, n);
    RevRev(bits, n);
    ModMod(bits, len, n);
  }

  lemma {:induction false} StartsAt(sizes: seq<nat>, s: nat, bits: nat)
    requires s < |sizes| && sizes[s] > 0 && bits % Pow2(sizes[s]) == Rev(CodeOf(sizes, s), sizes[s])
    ensures Starts(sizes, s, bits)
  {
  }
}
