/** Histograms of code lengths, and the same codes as a sequence of lengths, longest first. */
module LengthCounts {
  import opened Powers
  import opened PrefixCode

  const MAX_SUPPORTED_CODE_SIZE := 32

  /** The number of codes of length 1 to `hi`. */
  ghost function Codes(s: seq<int>, hi: nat): int
    requires hi < |s|
  {
    if hi == 0 then 0 else Codes(s, hi - 1) + s[hi]
  }

  /** The Kraft sum of the codes of length 1 to `hi`, scaled by two to the power `scale`. */
  ghost function Kraft(s: seq<int>, hi: nat, scale: nat): int
    requires hi < |s| && hi <= scale
  {
    if hi == 0 then 0 else Kraft(s, hi - 1, scale) + s[hi] * Pow2(scale - hi)
  }

  ghost predicate Counts(s: seq<int>) {
    |s| == MAX_SUPPORTED_CODE_SIZE + 1 && forall i | 0 <= i < |s| :: s[i] >= 0
  }

  lemma {:induction false} UpdateCodes(s: seq<int>, hi: nat, i: nat, v: int)
    requires hi < |s| && 0 < i < |s|
    ensures Codes(s[i := v], hi) == Codes(s, hi) + (if i <= hi then v - s[i] else 0)
  {
    if hi > 0 {
      UpdateCodes(s, hi - 1, i, v);
    }
  }

  lemma {:induction false} UpdateKraft(s: seq<int>, hi: nat, scale: nat, i: nat, v: int)
    requires hi < |s| && hi <= scale && 0 < i < |s|
    ensures Kraft(s[i := v], hi, scale)
         == Kraft(s, hi, scale) + (if i <= hi then (v - s[i]) * Pow2(scale - i) else 0)
  {
    if hi > 0 {
      UpdateKraft(s, hi - 1, scale, i, v);
      if i == hi {
        assert v * Pow2(scale - i) == s[i] * Pow2(scale - i) + (v - s[i]) * Pow2(scale - i);
      }
    }
  }

  /** Lowering the scale divides the sum of the short codes. */
  lemma {:induction false} Rescale(s: seq<int>, hi: nat, max: nat, scale: nat)
    requires hi < |s| && hi <= max <= scale
    ensures Kraft(s, hi, scale) == Kraft(s, hi, max) * Pow2(scale - max)
  {
    if hi > 0 {
      Rescale(s, hi - 1, max, scale);
      Pow2Add(max - hi, scale - max);
      assert max - hi + (scale - max) == scale - hi;
      Product(Kraft(s, hi - 1, max), s[hi], Pow2(max - hi), Pow2(scale - max));
    }
  }

  lemma {:induction false} Product(k: int, c: int, p: int, q: int)
    ensures k * q + c * (p * q) == (k + c * p) * q
  {
    assert c * (p * q) == (c * p) * q;
  }

  /** The counts once all codes longer than `max` are given length `max`. */
  ghost function Folded(s: seq<int>, max: nat): seq<int>
    requires 0 < max < |s| == 33
  {
    s[max := s[max] + Codes(s, 32) - Codes(s, max)]
  }

  /** One code of length `i` becomes two of length `i + 1`. */
  ghost function Lengthened(s: seq<int>, i: nat): seq<int>
    requires 0 < i && i + 1 < |s|
  {
    s[i := s[i] - 1][i + 1 := s[i + 1] + 2]
  }

  // ---------------------------------------------------------------- the lengths, longest first

  ghost function Copies(v: nat, n: nat): (r: seq<nat>)
    ensures |r| == n && forall i | 0 <= i < n :: r[i] == v
  {
    seq(n, _ => v)
  }

  ghost function Spread(s: seq<int>, hi: nat): seq<nat>
    requires Counts(s) && hi < |s|
  {
    if hi == 0 then [] else Copies(hi, s[hi]) + Spread(s, hi - 1)
  }

  ghost predicate Descending(z: seq<nat>) {
    forall i, j | 0 <= i <= j < |z| :: z[i] >= z[j]
  }

  lemma {:induction false} SpreadShape(s: seq<int>, hi: nat)
    requires Counts(s) && hi < |s|
    ensures |Spread(s, hi)| == Codes(s, hi) && Descending(Spread(s, hi)) && AtMost(Spread(s, hi), hi)
    ensures forall i | 0 <= i < |Spread(s, hi)| :: Spread(s, hi)[i] >= 1
  {
    if hi > 0 {
      SpreadShape(s, hi - 1);
    }
  }

  /** Lengths that no code has do not show. */
  lemma {:induction false} SpreadGap(s: seq<int>, low: nat, hi: nat)
    requires Counts(s) && low <= hi < |s| && forall j | low < j <= hi :: s[j] == 0
    ensures Spread(s, hi) == Spread(s, low)
  {
    if low < hi {
      SpreadGap(s, low, hi - 1);
      assert Copies(hi, 0) == [];
    }
  }

  lemma {:induction false} SpreadSame(s: seq<int>, t: seq<int>, hi: nat)
    requires Counts(s) && Counts(t) && hi < |s| && forall j | 0 < j <= hi :: s[j] == t[j]
    ensures Spread(s, hi) == Spread(t, hi)
  {
    if hi > 0 {
      SpreadSame(s, t, hi - 1);
    }
  }

  lemma {:induction false} KraftSumConcat(a: seq<nat>, b: seq<nat>, scale: nat)
    requires AtMost(a, scale) && AtMost(b, scale)
    ensures AtMost(a + b, scale) && KraftSum(a + b, scale) == KraftSum(a, scale) + KraftSum(b, scale)
  {
    if a == [] {
      assert a + b == b;
    } else {
      KraftSumConcat(a[1..], b, scale);
      assert (a + b)[1..] == a[1..] + b;
    }
  }

  lemma {:induction false} KraftSumCopies(v: nat, n: nat, scale: nat)
    requires v <= scale
    ensures KraftSum(Copies(v, n), scale) == n * Pow2(scale - v)
  {
    if n > 0 {
      KraftSumCopies(v, n - 1, scale);
      assert Copies(v, n)[1..] == Copies(v, n - 1);
      assert n * Pow2(scale - v) == (n - 1) * Pow2(scale - v) + Pow2(scale - v);
    }
  }

  lemma {:induction false} KraftOfSpread(s: seq<int>, hi: nat, scale: nat)
    requires Counts(s) && hi < |s| && hi <= scale
    ensures AtMost(Spread(s, hi), scale) && KraftSum(Spread(s, hi), scale) == Kraft(s, hi, scale)
  {
    SpreadShape(s, hi);
    if hi > 0 {
      KraftOfSpread(s, hi - 1, scale);
      KraftSumCopies(hi, s[hi], scale);
      KraftSumConcat(Copies(hi, s[hi]), Spread(s, hi - 1), scale);
    }
  }

  /** Codes no longer than `max` sum to a multiple of what one of them takes at most. */
  lemma {:induction false} KraftSumRescale(z: seq<nat>, max: nat, scale: nat)
    requires AtMost(z, max) && max <= scale
    ensures AtMost(z, scale) && KraftSum(z, scale) == KraftSum(z, max) * Pow2(scale - max)
  {
    hide Pow2;
    if z != [] {
      KraftSumRescale(z[1..], max, scale);
      Pow2Add(max - z[0], scale - max);
      assert max - z[0] + (scale - max) == scale - z[0];
      Product(KraftSum(z[1..], max), 1, Pow2(max - z[0]), Pow2(scale - max));
    }
  }

  /** The longer codes stand before the others. */
  lemma {:induction false} SpreadSplit(s: seq<int>, low: nat, hi: nat)
    requires Counts(s) && low <= hi < |s|
    ensures
      var d := Codes(s, hi) - Codes(s, low);
      && 0 <= d <= |Spread(s, hi)| && Spread(s, hi)[d..] == Spread(s, low)
      && forall r | 0 <= r < d :: Spread(s, hi)[r] > low
  {
    SpreadShape(s, hi);
    if low < hi {
      SpreadSplit(s, low, hi - 1);
      SpreadShape(s, hi - 1);
      var d := Codes(s, hi) - Codes(s, low);
      assert Spread(s, hi)[d..] == Spread(s, hi - 1)[d - s[hi]..];
    }
  }

  /** Where the codes of one length stand, counted from the end. */
  lemma {:induction false} SpreadAt(s: seq<int>, i: nat, hi: nat, p: nat)
    requires Counts(s) && 0 < i <= hi < |s|
    requires p < |Spread(s, hi)| && Codes(s, i - 1) <= |Spread(s, hi)| - 1 - p < Codes(s, i)
    ensures Spread(s, hi)[p] == i
  {
    SpreadShape(s, hi);
    if i < hi {
      SpreadShape(s, hi - 1);
      CodesGrow(s, i, hi - 1);
      SpreadAt(s, i, hi - 1, p - s[hi]);
    }
  }

  lemma {:induction false} CodesGrow(s: seq<int>, low: nat, hi: nat)
    requires Counts(s) && low <= hi < |s|
    ensures 0 <= Codes(s, low) <= Codes(s, hi)
  {
    if low < hi {
      CodesGrow(s, low, hi - 1);
    } else if low > 0 {
      CodesGrow(s, low - 1, low - 1);
    }
  }

  // ---------------------------------------------------------------- one turn of the limiter

  /** The most frequent of the longest codes and the rarest of the others, of length `i`, get length `i + 1`. */
  ghost function Turn(z: seq<nat>, k: nat, i: nat): (r: seq<nat>)
    requires 0 < k < |z|
    ensures |r| == |z|
  {
    z[k - 1 := i + 1][k := i + 1]
  }

  /** The longest codes below the limit have length `i`. */
  ghost predicate NextLongest(s: seq<int>, i: nat, max: nat) {
    0 < i < max < |s| && s[i] > 0 && forall j | i < j < max :: s[j] == 0
  }

  ghost predicate Turned(s: seq<int>, t: seq<int>, max: nat) {
    exists i: nat :: NextLongest(s, i, max) && t == Lengthened(s[max := s[max] - 1], i)
  }

  lemma {:induction false} SpreadTop(s: seq<int>, i: nat, max: nat)
    requires Counts(s) && 0 < i < max < |s| && forall j | i < j < max :: s[j] == 0
    ensures Spread(s, max) == Copies(max, s[max]) + (Copies(i, s[i]) + Spread(s, i - 1))
  {
    SpreadGap(s, i, max - 1);
  }

  lemma {:induction false} TurnOfSpread(s: seq<int>, i: nat, max: nat)
    requires Counts(s) && max < |s| && s[max] > 0 && NextLongest(s, i, max)
    requires Counts(Lengthened(s[max := s[max] - 1], i))
    ensures
      var z, k: nat := Spread(s, max), s[max];
      && k < |z| && z[k] == i && (forall r | 0 <= r < k :: z[r] == max)
      && Spread(Lengthened(s[max := s[max] - 1], i), max) == Turn(z, k, i)
  {
    hide Spread;
    var t := Lengthened(s[max := s[max] - 1], i);
    var k: nat, c: nat := s[max], s[i];
    var rest := Spread(s, i - 1);
    SpreadTop(s, i, max);
    SpreadSame(s, t, i - 1);
    if i + 1 == max {
      SpreadTop(t, i, max);
      TurnAtLimit(k, c, i, rest);
    } else {
      SpreadTop(t, i + 1, max);
      SpreadOne(t, i);
      TurnBelowLimit(k, c, i, max, rest);
    }
  }

  lemma SpreadOne(s: seq<int>, i: nat)
    requires Counts(s) && 0 < i < |s|
    ensures Spread(s, i) == Copies(i, s[i]) + Spread(s, i - 1)
  {
  }

  lemma TurnAtLimit(k: nat, c: nat, i: nat, rest: seq<nat>)
    requires 0 < k && 0 < c
    ensures Copies(i + 1, k + 1) + (Copies(i, c - 1) + rest) == Turn(Copies(i + 1, k) + (Copies(i, c) + rest), k, i)
  {
  }

  lemma TurnBelowLimit(k: nat, c: nat, i: nat, max: nat, rest: seq<nat>)
    requires 0 < k && 0 < c
    ensures Copies(max, k - 1) + (Copies(i + 1, 2) + (Copies(i, c - 1) + rest))
         == Turn(Copies(max, k) + (Copies(i, c) + rest), k, i)
  {
  }

  // ---------------------------------------------------------------- how far the limiter gets

  /** Only codes up to `q` have changed. The ones before it have taken up all turns but the last, and are many. */
  ghost predicate ReachedTo(z0: seq<nat>, z: seq<nat>, q: nat, max: nat, turns: int) {
    && |z| == |z0| && q < |z0| && AtMost(z0, max) && z0[q] < max
    && (forall r | q < r < |z0| :: z[r] == z0[r])
    && KraftSum(z0[..q], max) - q <= turns - 1
    && Pow2(max - z0[q]) < q
  }

  ghost predicate Reached(z0: seq<nat>, z: seq<nat>, max: nat, turns: int) {
    z == z0 || exists q: nat :: ReachedTo(z0, z, q, max, turns)
  }

  lemma {:induction false} KraftOfLongest(z: seq<nat>, k: nat, max: nat)
    requires k <= |z| && AtMost(z, max) && forall r | 0 <= r < k :: z[r] == max
    ensures KraftSum(z, max) == k + KraftSum(z[k..], max)
  {
    assert z[..k] == Copies(max, k) && z == z[..k] + z[k..];
    KraftSumCopies(max, k, max);
    KraftSumConcat(z[..k], z[k..], max);
    assert Pow2(0) == 1;
  }

  lemma {:induction false} ManyBefore(tail: seq<nat>, i: nat, k: nat, max: nat)
    requires i <= max && AtMost(tail, i)
    requires KraftSum(tail, max) < Pow2(max) < k + KraftSum(tail, max)
    ensures Pow2(max - i) < k
  {
    hide KraftSum, Pow2;
    KraftSumRescale(tail, i, max);
    Pow2Add(i, max - i);
    assert i + (max - i) == max;
    MultipleBelow(KraftSum(tail, i), Pow2(i), Pow2(max - i));
  }

  lemma MultipleBelow(a: nat, b: nat, p: nat)
    requires a * p < b * p
    ensures a * p + p <= b * p
  {
    if p > 0 {
      Cancel(a, b, p);
      Cancel(b, a + 1, p);
      assert (a + 1) * p == a * p + p;
    }
  }

  lemma {:induction false} Cancel(a: int, b: int, q: int)
    requires q > 0
    ensures a * q < b * q <==> a < b
    ensures a * q == b * q <==> a == b
  {
    if a < b {
      assert (b - a) * q > 0;
    } else if a > b {
      assert (a - b) * q > 0;
    }
  }

  lemma {:induction false} SuffixSum(z: seq<nat>, m: nat, k: nat, max: nat)
    requires AtMost(z, max) && m <= k <= |z|
    ensures KraftSum(z[k..], max) <= KraftSum(z[m..], max)
  {
    assert z[m..] == z[m..k] + z[k..];
    KraftSumConcat(z[m..k], z[k..], max);
  }

  /** One more turn: either it stays among the codes reached, or it reaches the next one when all before are longest. */
  lemma {:induction false} OneMoreTurn(z0: seq<nat>, z: seq<nat>, k: nat, i: nat, m: nat, max: nat, turns: nat)
    requires AtMost(z0, max) && AtMost(z, max) && |z| == |z0| && Descending(z0) && Reached(z0, z, max, turns)
    requires KraftSum(z, max) + turns == KraftSum(z0, max) && KraftSum(z, max) > Pow2(max)
    requires m <= |z0| && (forall r | 0 <= r < m :: z0[r] == max) && KraftSum(z0[m..], max) < Pow2(max)
    requires 0 < k < |z| && z[k] == i < max && forall r | 0 <= r < k :: z[r] == max
    ensures Reached(z0, Turn(z, k, i), max, turns + 1)
  {
    hide KraftSum, Pow2;
    if q: nat :| ReachedTo(z0, z, q, max, turns) && k <= q {
      assert ReachedTo(z0, Turn(z, k, i), q, max, turns + 1);
    } else {
      assert forall r | k <= r < |z| :: z[r] == z0[r];
      assert z[k..] == z0[k..];
      KraftOfLongest(z, k, max);
      assert z0 == z0[..k] + z0[k..];
      KraftSumConcat(z0[..k], z0[k..], max);
      SuffixSum(z0, m, k, max);
      ManyBefore(z0[k..], i, k, max);
      assert ReachedTo(z0, Turn(z, k, i), k, max, turns + 1);
    }
  }
}
