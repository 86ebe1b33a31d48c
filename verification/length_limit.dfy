/** Limiting the code lengths of a Huffman code: the histogram of lengths is folded at the limit and
    then repaired one surplus code at a time. */
module LengthLimit {
  import opened Powers
  import opened PrefixCode
  import opened LengthCounts

  /** Codes longer than the limit leave room below it for at least one code of the limit's length. */
  lemma {:induction false} LongTail(s: seq<int>, max: nat, hi: nat)
    requires Counts(s) && max <= hi <= MAX_SUPPORTED_CODE_SIZE
    ensures Codes(s, hi) >= Codes(s, max)
    ensures Kraft(s, hi, 32) >= Kraft(s, max, 32)
    ensures Codes(s, hi) > Codes(s, max) <==> Kraft(s, hi, 32) > Kraft(s, max, 32)
    ensures Kraft(s, hi, 32) - Kraft(s, max, 32) <= (Codes(s, hi) - Codes(s, max)) * Pow2(32 - max)
  {
    if max < hi {
      LongTail(s, max, hi - 1);
      assert s[hi] > 0 ==> s[hi] * Pow2(32 - hi) > 0;
      Pow2Monotone(32 - hi, 32 - max);
      TailStep(Codes(s, hi - 1) - Codes(s, max), s[hi], Pow2(32 - hi), Pow2(32 - max));
    }
  }

  lemma {:induction false} TailStep(c: int, n: int, p: int, q: int)
    requires n >= 0 && p <= q
    ensures c * q + n * p <= (c + n) * q
  {
    assert n * p <= n * q;
  }

  /** The surplus created by folding is smaller than the number of codes folded. */
  lemma {:induction false} SurplusBelowFolded(s: seq<int>, max: nat)
    requires Counts(s) && 0 < max <= MAX_SUPPORTED_CODE_SIZE
    requires Kraft(s, 32, 32) == Pow2(32)
    ensures Codes(s, 32) == Codes(s, max) ==> Kraft(s, max, max) == Pow2(max)
    ensures Codes(s, 32) > Codes(s, max) ==> Kraft(s, max, max) < Pow2(max)
    ensures Kraft(s, max, max) + (Codes(s, 32) - Codes(s, max)) >= Pow2(max)
    ensures Codes(s, 32) >= Codes(s, max)
  {
    LongTail(s, max, 32);
    Rescale(s, max, max, 32);
    Pow2Add(max, 32 - max);
    assert max + (32 - max) == 32;
    var more := Codes(s, 32) - Codes(s, max);
    Cancel(Kraft(s, max, max), Pow2(max), Pow2(32 - max));
    Cancel(Kraft(s, max, max) + more, Pow2(max), Pow2(32 - max));
    assert (Kraft(s, max, max) + more) * Pow2(32 - max) == Kraft(s, max, max) * Pow2(32 - max) + more * Pow2(32 - max);
  }

  lemma {:induction false} OnlyLongest(s: seq<int>, hi: nat, scale: nat)
    requires hi < |s| && hi <= scale && forall i | 0 < i <= hi :: s[i] == 0
    ensures Codes(s, hi) == 0 && Kraft(s, hi, scale) == 0
  {
    if hi > 0 {
      OnlyLongest(s, hi - 1, scale);
    }
  }

  lemma {:induction false} FoldedSums(s: seq<int>, max: nat)
    requires Counts(s) && 0 < max <= 32 && Kraft(s, 32, 32) == Pow2(32)
    ensures var f := Folded(s, max);
            && Counts(f) && Codes(f, max) == Codes(s, 32) && Kraft(f, max, max) >= Pow2(max)
            && (Kraft(f, max, max) == Pow2(max) || f[max] > Kraft(f, max, max) - Pow2(max))
            && (Codes(s, 32) == Codes(s, max) ==> f == s && Kraft(f, max, max) == Pow2(max))
  {
    hide Kraft, Codes, Pow2;
    var more := Codes(s, 32) - Codes(s, max);
    SurplusBelowFolded(s, max);
    UpdateCodes(s, max, max, s[max] + more);
    UpdateKraft(s, max, max, max, s[max] + more);
    Pow2Double(0);
  }

  /** Adds the counts of all longer codes to the count of codes of length `max`. */
  method Fold(numCodes: array<int>, max: nat)
    requires numCodes.Length == 33 && 0 < max <= MAX_SUPPORTED_CODE_SIZE
    modifies numCodes
    ensures numCodes[..] == Folded(old(numCodes[..]), max)
  {
    ghost var s := numCodes[..];
    var i := max + 1;
    while i <= MAX_SUPPORTED_CODE_SIZE
      invariant max < i <= 33
      invariant numCodes[..] == s[max := s[max] + Codes(s, i - 1) - Codes(s, max)]
    {
      numCodes[max] := numCodes[max] + numCodes[i];
      i := i + 1;
    }
  }

  method KraftTotal(numCodes: array<int>, max: nat) returns (total: int)
    requires numCodes.Length == 33 && 0 < max <= MAX_SUPPORTED_CODE_SIZE
    ensures total == Kraft(numCodes[..], max, max)
  {
    total := 0;
    var i := max;
    while i > 0
      invariant 0 <= i <= max
      invariant total + Kraft(numCodes[..], i, max) == Kraft(numCodes[..], max, max)
    {
      total := total + numCodes[i] * Pow2(max - i);
      i := i - 1;
    }
  }

  /** Drops one longest code and lengthens the next longest one, which frees exactly one unit. */
  method RemoveSurplus(numCodes: array<int>, max: nat)
    requires numCodes.Length == 33 && 0 < max <= MAX_SUPPORTED_CODE_SIZE
    requires Counts(numCodes[..]) && numCodes[max] > 0
    requires Codes(numCodes[..], max) <= Pow2(max) < Kraft(numCodes[..], max, max)
    modifies numCodes
    ensures Counts(numCodes[..]) && numCodes[max] >= old(numCodes[max]) - 1
    ensures Codes(numCodes[..], max) == old(Codes(numCodes[..], max))
    ensures Kraft(numCodes[..], max, max) == old(Kraft(numCodes[..], max, max)) - 1
    ensures numCodes[max + 1..] == old(numCodes[max + 1..])
    ensures Turned(old(numCodes[..]), numCodes[..], max)
  {
    ghost var s := numCodes[..];
    ghost var s1 := s[max := s[max] - 1];
    numCodes[max] := numCodes[max] - 1;
    UpdateCodes(s, max, max, s[max] - 1);
    UpdateKraft(s, max, max, max, s[max] - 1);
    assert Pow2(0) == 1;
    assert numCodes[..] == s1;
    var i: int := max - 1;
    while i > 0
      invariant 0 <= i < max && numCodes[..] == s1
      invariant forall j | i < j < max :: s1[j] == 0
    {
      if numCodes[i] != 0 {
        numCodes[i] := numCodes[i] - 1;
        numCodes[i + 1] := numCodes[i + 1] + 2;
        LengthenOne(s1, i, max);
        assert numCodes[..] == Lengthened(s1, i);
        assert forall j | i < j < max :: s[j] == s1[j];
        assert NextLongest(s, i, max);
        return;
      }
      i := i - 1;
    }
    OnlyLongest(s1, max - 1, max);
    assert false;
  }

  lemma {:induction false} LengthenOne(s: seq<int>, i: nat, max: nat)
    requires 0 < i < max < |s|
    ensures Codes(Lengthened(s, i), max) == Codes(s, max) + 1
    ensures Kraft(Lengthened(s, i), max, max) == Kraft(s, max, max)
  {
    var t := s[i := s[i] - 1];
    UpdateCodes(s, max, i, s[i] - 1);
    UpdateKraft(s, max, max, i, s[i] - 1);
    UpdateCodes(t, max, i + 1, s[i + 1] + 2);
    UpdateKraft(t, max, max, i + 1, s[i + 1] + 2);
    assert Pow2(max - i) == 2 * Pow2(max - i - 1);
  }

  /** The limiter's result seen from the code it was given: how far it got in lengthening codes. */
  ghost predicate LimitedFrom(s: seq<int>, t: seq<int>, max: nat) {
    && Counts(s) && Counts(t) && 0 < max <= 32
    && Counts(Folded(s, max)) && Kraft(Folded(s, max), max, max) >= Pow2(max)
    && (Kraft(Folded(s, max), max, max) == Pow2(max) || Kraft(Folded(s, max), max, max) - Pow2(max) < Codes(s, 32))
    && Reached(Spread(Folded(s, max), max), Spread(t, max), max, Kraft(Folded(s, max), max, max) - Pow2(max))
  }

  lemma NothingTurned(s: seq<int>, max: nat)
    requires Counts(s) && 0 < max <= 32 && Kraft(s, 32, 32) == Pow2(32)
    ensures Counts(Folded(s, max))
    ensures Reached(Spread(Folded(s, max), max), Spread(Folded(s, max), max), max, 0)
  {
    hide Spread, Kraft, Codes;
    FoldedSums(s, max);
  }

  lemma LimitDone(s: seq<int>, t: seq<int>, max: nat)
    requires Counts(s) && Counts(t) && 0 < max <= 32 && Kraft(s, 32, 32) == Pow2(32)
    requires Counts(Folded(s, max))
    requires Reached(Spread(Folded(s, max), max), Spread(t, max), max, Kraft(Folded(s, max), max, max) - Pow2(max))
    ensures LimitedFrom(s, t, max)
  {
    hide Kraft, Codes, Spread, Reached, Pow2;
    var f := Folded(s, max);
    FoldedSums(s, max);
    AtMostAll(f, max);
  }

  lemma AtMostAll(f: seq<int>, max: nat)
    requires Counts(f) && 0 < max <= 32
    ensures f[max] <= Codes(f, max)
  {
    hide Spread;
    SpreadShape(f, max - 1);
  }

  /** A turn takes the limiter on. */
  lemma {:induction false} TurnReaches(s: seq<int>, a: seq<int>, b: seq<int>, max: nat, turns: nat)
    requires Counts(s) && 0 < max <= 32 && Kraft(s, 32, 32) == Pow2(32) && Counts(Folded(s, max))
    requires Counts(a) && Counts(b) && a[max] > 0 && Turned(a, b, max) && Codes(a, max) == Codes(Folded(s, max), max)
    requires Pow2(max) < Kraft(a, max, max) == Kraft(Folded(s, max), max, max) - turns
    requires Reached(Spread(Folded(s, max), max), Spread(a, max), max, turns)
    ensures Reached(Spread(Folded(s, max), max), Spread(b, max), max, turns + 1)
  {
    hide Kraft, Spread, KraftSum, Pow2, Reached, Folded, Turn, Codes;
    var i: nat :| NextLongest(a, i, max) && b == Lengthened(a[max := a[max] - 1], i);
    var f := Folded(s, max);
    SpreadShape(f, max);
    SpreadShape(a, max);
    KraftOfSpread(f, max, max);
    KraftOfSpread(a, max, max);
    TurnOfSpread(a, i, max);
    ShortOnesSmall(s, max, turns);
    OneMoreTurn(Spread(f, max), Spread(a, max), a[max], i, f[max], max, turns);
  }

  /** The codes shorter than the limit leave room, if there was anything to fold. */
  lemma {:induction false} ShortOnesSmall(s: seq<int>, max: nat, turns: nat)
    requires Counts(s) && 0 < max <= 32 && Kraft(s, 32, 32) == Pow2(32) && Counts(Folded(s, max))
    requires Kraft(Folded(s, max), max, max) - turns > Pow2(max)
    ensures
      var f, z := Folded(s, max), Spread(Folded(s, max), max);
      && f[max] <= |z| && AtMost(z, max) && (forall r | 0 <= r < f[max] :: z[r] == max)
      && KraftSum(z[f[max]..], max) < Pow2(max)
  {
    hide Pow2, KraftSum;
    var f := Folded(s, max);
    FoldedSums(s, max);
    SurplusBelowFolded(s, max);
    SpreadShape(f, max);
    var z := Spread(f, max);
    assert z[f[max]..] == Spread(f, max - 1);
    KraftOfSpread(f, max - 1, max);
    KraftBelow(s, f, max - 1, max);
    assert s[max] * Pow2(max - max) >= 0;
  }

  lemma {:induction false} KraftBelow(s: seq<int>, f: seq<int>, hi: nat, scale: nat)
    requires |s| == |f| && hi < |s| && hi <= scale && forall i | 0 < i <= hi :: s[i] == f[i]
    ensures Kraft(s, hi, scale) == Kraft(f, hi, scale)
  {
    if hi > 0 {
      KraftBelow(s, f, hi - 1, scale);
    }
  }

  /** The counts after `n` turns of the limiter. */
  ghost predicate TurnedTimes(s: seq<int>, t: seq<int>, max: nat, n: nat)
    decreases n
  {
    if n == 0 then s == t else exists mid :: TurnedTimes(s, mid, max, n - 1) && Turned(mid, t, max)
  }

  lemma {:induction false} TurnedOnce(s: seq<int>, mid: seq<int>, t: seq<int>, max: nat, n: nat)
    requires TurnedTimes(s, mid, max, n) && Turned(mid, t, max)
    ensures TurnedTimes(s, t, max, n + 1)
  {
    hide Turned;
  }

  lemma NoTurn(s: seq<int>, max: nat)
    ensures TurnedTimes(s, s, max, 0)
  {
  }

  /** The codes longer than `max` are shortened to it, and one turn is taken for each unit of surplus. */
  ghost predicate Enforced(s: seq<int>, t: seq<int>, max: nat)
    requires |s| == 33 && 0 < max <= 32
  {
    var f := Folded(s, max);
    Kraft(f, max, max) >= Pow2(max) && TurnedTimes(f, t, max, Kraft(f, max, max) - Pow2(max))
  }

  /** For a complete code of at most two to the power `max` symbols: ends with a complete code for the same
      number of symbols in which no code is longer than `max`. A code already that short is left alone. */
  method EnforceMaxCodeSize(numCodes: array<int>, codeListLen: int, max: nat)
    requires numCodes.Length == 33 && 0 < max <= MAX_SUPPORTED_CODE_SIZE
    requires codeListLen > 1 ==>
      && Counts(numCodes[..]) && Kraft(numCodes[..], 32, 32) == Pow2(32) && Codes(numCodes[..], 32) <= Pow2(max)
    modifies numCodes
    ensures codeListLen <= 1 ==> numCodes[..] == old(numCodes[..])
    ensures codeListLen > 1 ==>
      && Counts(numCodes[..])
      && Codes(numCodes[..], max) == old(Codes(numCodes[..], 32))
      && Kraft(numCodes[..], max, max) == Pow2(max)
      && (old(Codes(numCodes[..], max) == Codes(numCodes[..], 32)) ==> numCodes[..] == old(numCodes[..]))
    ensures codeListLen > 1 ==> Enforced(old(numCodes[..]), numCodes[..], max)
    ensures codeListLen > 1 ==> LimitedFrom(old(numCodes[..]), numCodes[..], max)
    ensures numCodes[max + 1..] == old(numCodes[max + 1..])
  {
    hide Kraft, Codes, Spread, Reached, Pow2, Turned, TurnedTimes;
    if codeListLen <= 1 {
      return;
    }
    FoldedSums(numCodes[..], max);
    ghost var start := numCodes[..];
    Fold(numCodes, max);
    var total := KraftTotal(numCodes, max);
    ghost var codes := Codes(numCodes[..], max);
    ghost var folded := numCodes[..];
    NothingTurned(start, max);
    NoTurn(folded, max);
    while total != Pow2(max)
      invariant Counts(numCodes[..]) && Codes(numCodes[..], max) == codes
      invariant total == Kraft(numCodes[..], max, max) >= Pow2(max)
      invariant total == Pow2(max) || numCodes[max] > total - Pow2(max)
      invariant total <= Kraft(folded, max, max) && (total == Kraft(folded, max, max) ==> numCodes[..] == folded)
      invariant Reached(Spread(folded, max), Spread(numCodes[..], max), max, Kraft(folded, max, max) - total)
      invariant TurnedTimes(folded, numCodes[..], max, Kraft(folded, max, max) - total)
      invariant numCodes[max + 1..] == old(numCodes[max + 1..])
      decreases total
    {
      ghost var before := numCodes[..];
      RemoveSurplus(numCodes, max);
      TurnedOnce(folded, before, numCodes[..], max, Kraft(folded, max, max) - total);
      TurnReaches(start, before, numCodes[..], max, Kraft(folded, max, max) - total);
      total := total - 1;
    }
    LimitDone(start, numCodes[..], max);
  }
}
