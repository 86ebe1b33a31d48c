/** The encoder's Huffman table: from symbol counts to length-limited canonical codes. */
module HuffmanTable {
  import opened Powers
  import opened PrefixCode
  import opened Bits
  import opened SymbolFrequency
  import opened RadixSort
  import opened UsedSymbols
  import opened LimitedCost
  import opened MinimumRedundancy
  import opened HuffmanForest
  import opened LengthCounts
  import opened LengthLimit
  import opened CanonicalCode
  import opened InflateBudget
  import opened InflateDecoder

  // ---------------------------------------------------------------- the histogram of lengths

  ghost predicate IsHistogram(num: seq<int>, ls: seq<nat>) {
    |num| == 33 && forall l: nat | l <= 32 :: num[l] == Count(ls, l)
  }

  lemma {:induction false} CountDrop(ls: seq<nat>, l: nat)
    requires ls != []
    ensures Count(ls, l) == Count(ls[1..], l) + (if ls[0] == l then 1 else 0)
  {
    var n := |ls| - 1;
    if n == 0 {
      assert ls[..0] == [] && ls[1..] == [];
    } else {
      CountDrop(ls[..n], l);
      assert ls[..n][1..] == ls[1..][..n - 1];
    }
  }

  /** Dropping one length lowers one count. */
  lemma {:induction false} HistogramDrop(num: seq<int>, ls: seq<nat>)
    requires ls != [] && ls[0] <= 32 && IsHistogram(num, ls)
    ensures IsHistogram(num[ls[0] := num[ls[0]] - 1], ls[1..])
  {
    forall l: nat | l <= 32
      ensures num[ls[0] := num[ls[0]] - 1][l] == Count(ls[1..], l)
    {
      CountDrop(ls, l);
    }
  }

  /** The histogram has the Kraft sum and the number of the lengths it counts. */
  lemma {:induction false} HistogramSums(num: seq<int>, ls: seq<nat>)
    requires IsHistogram(num, ls) && AtMost(ls, 32) && forall i | 0 <= i < |ls| :: ls[i] >= 1
    ensures Kraft(num, 32, 32) == KraftSum(ls, 32) && Codes(num, 32) == |ls|
    decreases |ls|
  {
    hide Kraft, Codes, Pow2;
    if ls == [] {
      ZeroSums(num, 32);
    } else {
      var num' := num[ls[0] := num[ls[0]] - 1];
      HistogramDrop(num, ls);
      HistogramSums(num', ls[1..]);
      UpdateKraft(num, 32, 32, ls[0], num[ls[0]] - 1);
      UpdateCodes(num, 32, ls[0], num[ls[0]] - 1);
    }
  }

  lemma {:induction false} ZeroSums(num: seq<int>, hi: nat)
    requires |num| == 33 && hi <= 32 && forall i | 0 <= i < |num| :: num[i] == 0
    ensures Kraft(num, hi, 32) == 0 && Codes(num, hi) == 0
  {
    if hi > 0 {
      ZeroSums(num, hi - 1);
    }
  }

  method LengthHistogram(syms: array<SymFreq>, n: nat) returns (num: array<int>)
    requires n <= syms.Length && forall i | 0 <= i < n :: syms[i].key <= 32
    ensures fresh(num) && num.Length == 33 && IsHistogram(num[..], Frequencies(syms[..n]))
  {
    num := new int[33](_ => 0);
    var i := 0;
    assert Frequencies(syms[..0]) == [];
    while i < n
      invariant 0 <= i <= n && IsHistogram(num[..], Frequencies(syms[..i]))
    {
      assert Frequencies(syms[..i + 1]) == Frequencies(syms[..i]) + [syms[i].key];
      forall l: nat
        ensures Count(Frequencies(syms[..i + 1]), l)
             == Count(Frequencies(syms[..i]), l) + (if syms[i].key == l then 1 else 0)
      {
        CountAppend(Frequencies(syms[..i]), syms[i].key, l);
      }
      num[syms[i].key] := num[syms[i].key] + 1;
      i := i + 1;
    }
  }

  // ---------------------------------------------------------------- handing out the lengths

  lemma {:induction false} CountUpdate(sizes: seq<nat>, s: nat, v: nat, l: nat)
    requires s < |sizes|
    ensures Count(sizes[s := v], l) == Count(sizes, l) + (if v == l then 1 else 0) - (if sizes[s] == l then 1 else 0)
  {
    var n := |sizes| - 1;
    if s == n {
      assert sizes[s := v][..n] == sizes[..n];
    } else {
      CountUpdate(sizes[..n], s, v, l);
      assert sizes[s := v][..n] == sizes[..n][s := v];
    }
  }

  lemma {:induction false} CountZeros(sizes: seq<nat>, l: nat)
    requires l > 0 && forall i | 0 <= i < |sizes| :: sizes[i] == 0
    ensures Count(sizes, l) == 0
  {
    if sizes != [] {
      CountZeros(sizes[..|sizes| - 1], l);
    }
  }

  /** Lengths were handed to the symbols from `j` on: all codes shorter than `i`, and all but `left` of length `i`. */
  ghost predicate Handing(sizes: seq<nat>, syms: seq<SymFreq>, num: seq<int>, j: nat, i: nat, left: int)
    requires |num| == 33
  {
    && j <= |syms| && 1 <= i <= 33 && left >= 0
    && (forall q | 0 <= q < |syms| :: syms[q].sym < |sizes| && (sizes[syms[q].sym] > 0 <==> q >= j))
    && (forall x | 0 <= x < |sizes| :: sizes[x] < i || (sizes[x] == i && left < if i < 33 then num[i] else 0))
    && (forall x | 0 <= x < |sizes| && sizes[x] > 0 :: exists q :: 0 <= q < |syms| && syms[q].sym == x)
    && (forall l: nat | 1 <= l < 33 :: Count(sizes, l) == if l < i then num[l] else if l == i then num[i] - left else 0)
    && (i < 33 ==> left <= num[i])
    && |syms| - j == Codes(num, i - 1) + (if i < 33 then num[i] - left else 0)
    && LaterShorter(sizes, syms, j)
  }

  /** From entry `j` on, later symbols have no longer codes. */
  ghost predicate LaterShorter(sizes: seq<nat>, syms: seq<SymFreq>, j: nat) {
    && (forall q | 0 <= q < |syms| :: syms[q].sym < |sizes|)
    && (forall p, q | j <= p <= q < |syms| :: sizes[syms[p].sym] >= sizes[syms[q].sym])
  }

  lemma {:induction false} LaterShorterOne(sizes: seq<nat>, syms: seq<SymFreq>, j: nat, i: nat)
    requires LaterShorter(sizes, syms, j) && 0 < j <= |syms| && DistinctSyms(syms)
    requires forall x | 0 <= x < |sizes| :: sizes[x] <= i
    ensures LaterShorter(sizes[syms[j - 1].sym := i], syms, j - 1)
  {
  }

  lemma {:induction false} HandOne(sizes: seq<nat>, syms: seq<SymFreq>, num: seq<int>, j: nat, i: nat, left: int)
    requires |num| == 33 && Handing(sizes, syms, num, j, i, left) && DistinctSyms(syms) && i < 33 && left > 0 && j > 0
    ensures Handing(sizes[syms[j - 1].sym := i], syms, num, j - 1, i, left - 1)
  {
    hide Count, LaterShorter;
    var s := syms[j - 1].sym;
    var sizes' := sizes[s := i];
    LaterShorterOne(sizes, syms, j, i);
    forall l: nat | 1 <= l < 33
      ensures Count(sizes', l) == if l < i then num[l] else if l == i then num[i] - (left - 1) else 0
    {
      CountUpdate(sizes, s, i, l);
    }
    forall q | 0 <= q < |syms|
      ensures sizes'[syms[q].sym] > 0 <==> q >= j - 1
    {
      if q < j - 1 {
        assert syms[q].sym != syms[j - 1].sym;
      }
    }
  }

  lemma {:induction false} NextLength(sizes: seq<nat>, syms: seq<SymFreq>, num: seq<int>, j: nat, i: nat)
    requires |num| == 33 && Handing(sizes, syms, num, j, i, 0) && i < 33
    requires i + 1 < 33 ==> num[i + 1] >= 0
    ensures Handing(sizes, syms, num, j, i + 1, if i + 1 < 33 then num[i + 1] else 0)
  {
  }

  /** There is a symbol left for every code that is left. */
  lemma {:induction false} SymbolLeft(num: seq<int>, i: nat, max: nat)
    requires Counts(num) && i <= max <= 32
    ensures Codes(num, i) <= Codes(num, max)
  {
    if i < max {
      SymbolLeft(num, i, max - 1);
    }
  }

  lemma {:induction false} MoreSymbols(sizes: seq<nat>, syms: seq<SymFreq>, num: seq<int>, j: nat, i: nat, left: int, max: nat)
    requires Counts(num) && Handing(sizes, syms, num, j, i, left) && 0 < left && i <= max <= 32
    requires Codes(num, max) == |syms|
    ensures 0 < j <= |syms| && syms[j - 1].sym < |sizes|
  {
    SymbolLeft(num, i, max);
  }

  /** The histogram's lengths are with the symbols, the longer ones with the earlier symbols. */
  ghost predicate HandedOut(sizes: seq<nat>, syms: seq<SymFreq>, num: seq<int>, max: nat) {
    && |num| == 33 && max <= 32 && LaterShorter(sizes, syms, 0)
    && (forall l: nat | 1 <= l <= max :: Count(sizes, l) == num[l])
    && (forall x | 0 <= x < |sizes| :: sizes[x] <= max)
    && (forall x | 0 <= x < |sizes| :: sizes[x] > 0 <==> exists q :: 0 <= q < |syms| && syms[q].sym == x)
  }

  /** Once every length is handed out, every symbol has one. */
  lemma {:induction false} AllHanded(sizes: seq<nat>, syms: seq<SymFreq>, num: seq<int>, j: nat, max: nat)
    requires |num| == 33 && 1 <= max <= 32 && Codes(num, max) == |syms|
    requires Handing(sizes, syms, num, j, max + 1, if max + 1 < 33 then num[max + 1] else 0)
    ensures HandedOut(sizes, syms, num, max)
  {
    hide Count, LaterShorter;
  }

  /** From entry `j` on, every symbol has the length that stands at its place. */
  ghost predicate Dealt(sizes: seq<nat>, syms: seq<SymFreq>, z: seq<nat>, j: nat) {
    |z| == |syms| && SymsBelow(syms, |sizes|) && forall q | j <= q < |syms| :: sizes[syms[q].sym] == z[q]
  }

  lemma {:induction false} DealOne(sizes: seq<nat>, syms: seq<SymFreq>, num: seq<int>, j: nat, i: nat, left: int, max: nat)
    requires Counts(num) && Handing(sizes, syms, num, j, i, left) && 0 < left && i <= max <= 32 && 0 < j
    requires Codes(num, max) == |syms| && DistinctSyms(syms) && Dealt(sizes, syms, Spread(num, max), j)
    ensures Dealt(sizes[syms[j - 1].sym := i], syms, Spread(num, max), j - 1)
  {
    hide Spread;
    SpreadShape(num, max);
    SpreadAt(num, i, max, j - 1);
  }

  lemma StartDealing(sizes: seq<nat>, syms: seq<SymFreq>, num: seq<int>, max: nat)
    requires Counts(num) && max <= 32 && Codes(num, max) == |syms| && SymsBelow(syms, |sizes|)
    ensures Dealt(sizes, syms, Spread(num, max), |syms|)
  {
    hide Spread;
    SpreadShape(num, max);
  }

  lemma NoneLeft(sizes: seq<nat>, syms: seq<SymFreq>, num: seq<int>, j: nat, max: nat)
    requires |num| == 33 && 1 <= max <= 32 && Codes(num, max) == |syms|
    requires Handing(sizes, syms, num, j, max + 1, if max + 1 < 33 then num[max + 1] else 0)
    ensures j == 0
  {
  }

  /** Gives length `i` to the next `num[i]` symbols, most frequent first. */
  method HandLength(syms: array<SymFreq>, used: nat, num: array<int>, max: nat, sizes: array<nat>, i: nat, from: nat)
    returns (j: nat)
    requires used <= syms.Length && num.Length == 33 && Counts(num[..]) && 1 <= i <= max <= 32
    requires Codes(num[..], max) == used && DistinctSyms(syms[..used])
    requires Handing(sizes[..], syms[..used], num[..], from, i, num[i])
    requires Dealt(sizes[..], syms[..used], Spread(num[..], max), from)
    modifies sizes
    ensures Handing(sizes[..], syms[..used], num[..], j, i, 0)
    ensures Dealt(sizes[..], syms[..used], Spread(num[..], max), j)
  {
    hide DistinctSyms, Handing, Codes, Dealt, Spread;
    ghost var ss, n := syms[..used], num[..];
    CountsAt(n, i - 1);
    var l := num[i];
    j := from;
    while l > 0
      invariant 0 <= l && syms[..used] == ss && num[..] == n
      invariant Handing(sizes[..], ss, n, j, i, l) && Dealt(sizes[..], ss, Spread(n, max), j)
    {
      ghost var before: seq<nat> := sizes[..];
      MoreSymbols(before, ss, n, j, i, l, max);
      HandOne(before, ss, n, j, i, l);
      DealOne(before, ss, n, j, i, l, max);
      j := j - 1;
      sizes[syms[j].sym] := i;
      assert sizes[..] == before[ss[j].sym := i];
      l := l - 1;
    }
  }

  /** The shortest codes go to the most frequent symbols. */
  method HandOut(syms: array<SymFreq>, used: nat, num: array<int>, max: nat, sizes: array<nat>)
    requires used <= syms.Length && num.Length == 33 && Counts(num[..]) && 1 <= max <= 32
    requires Codes(num[..], max) == used && DistinctSyms(syms[..used])
    requires forall q | 0 <= q < used :: syms[q].sym < sizes.Length
    requires forall x | 0 <= x < sizes.Length :: sizes[x] == 0
    modifies sizes
    ensures HandedOut(sizes[..], syms[..used], num[..], max)
    ensures Dealt(sizes[..], syms[..used], Spread(num[..], max), 0)
  {
    hide DistinctSyms, Handing, HandedOut, Codes, Count, Dealt, Spread;
    ghost var ss, n := syms[..used], num[..];
    StartHanding(sizes[..], ss, n);
    StartDealing(sizes[..], ss, n, max);
    var i: nat, j: nat := 1, used;
    while i <= max
      invariant 1 <= i <= max + 1 && syms[..used] == ss && num[..] == n
      invariant Handing(sizes[..], ss, n, j, i, if i < 33 then n[i] else 0) && Dealt(sizes[..], ss, Spread(n, max), j)
    {
      j := HandLength(syms, used, num, max, sizes, i, j);
      CountsAt(n, i);
      NextLength(sizes[..], ss, n, j, i);
      i := i + 1;
    }
    AllHanded(sizes[..], ss, n, j, max);
    NoneLeft(sizes[..], ss, n, j, max);
  }

  lemma {:induction false} CountsAt(n: seq<int>, i: nat)
    requires Counts(n)
    ensures i + 1 < 33 ==> n[i + 1] >= 0
  {
  }

  lemma {:induction false} StartHanding(sizes: seq<nat>, syms: seq<SymFreq>, num: seq<int>)
    requires Counts(num) && (forall x | 0 <= x < |sizes| :: sizes[x] == 0)
    requires forall q | 0 <= q < |syms| :: syms[q].sym < |sizes|
    ensures Handing(sizes, syms, num, |syms|, 1, num[1])
  {
    forall l: nat | 1 <= l < 33
      ensures Count(sizes, l) == 0
    {
      CountZeros(sizes, l);
    }
  }

  // ---------------------------------------------------------------- canonical codes

  /** The Kraft sum of the histogram is half of the first code beyond it. */
  lemma {:induction false} FirstCodeIsKraft(sizes: seq<nat>, num: seq<int>, l: nat)
    requires |num| == 33 && l <= 32 && forall k: nat | 1 <= k <= l :: Count(sizes, k) == num[k]
    ensures FirstCode(sizes, l + 1) == 2 * Kraft(num, l, l)
  {
    if l > 0 {
      FirstCodeIsKraft(sizes, num, l - 1);
      Rescale(num, l - 1, l - 1, l);
      Pow2Double(0);
      assert Pow2(1) == 2;
    } else {
      assert FirstCode(sizes, 1) == 0;
    }
  }

  lemma {:induction false} NoLongerCodes(sizes: seq<nat>, from: nat, l: nat)
    requires 1 <= from <= l && forall k: nat | from <= k < l :: Count(sizes, k) == 0
    ensures FirstCode(sizes, l) == FirstCode(sizes, from) * Pow2(l - from)
  {
    if from < l {
      NoLongerCodes(sizes, from, l - 1);
      Pow2Double(l - 1 - from);
      var f, p := FirstCode(sizes, from), Pow2(l - 1 - from);
      assert f * (2 * p) == 2 * (f * p);
    } else {
      Pow2Double(0);
    }
  }

  lemma {:induction false} CountAbove(sizes: seq<nat>, l: nat)
    requires forall x | 0 <= x < |sizes| :: sizes[x] < l
    ensures Count(sizes, l) == 0
  {
    if sizes != [] {
      CountAbove(sizes[..|sizes| - 1], l);
    }
  }

  lemma {:induction false} UsedIsCodes(sizes: seq<nat>, num: seq<int>, l: nat)
    requires |num| == 33 && l <= 32 && forall k: nat | 1 <= k <= l :: Count(sizes, k) == num[k]
    ensures Used(sizes, l) == Codes(num, l)
  {
    if l > 0 {
      UsedIsCodes(sizes, num, l - 1);
    }
  }

  /** A limited complete histogram gives a complete canonical code. */
  lemma {:induction false} HistogramComplete(sizes: seq<nat>, num: seq<int>, max: nat)
    requires |num| == 33 && 1 <= max <= 15 && forall l: nat | 1 <= l <= max :: Count(sizes, l) == num[l]
    requires forall x | 0 <= x < |sizes| :: sizes[x] <= max
    requires Kraft(num, max, max) == Pow2(max)
    ensures CompleteCode(sizes)
  {
    FirstCodeIsKraft(sizes, num, max);
    forall k: nat | max + 1 <= k < 16
      ensures Count(sizes, k) == 0
    {
      CountAbove(sizes, k);
    }
    NoLongerCodes(sizes, max + 1, 16);
    Pow2Double(max);
    Pow2Add(max + 1, 15 - max);
  }

  /** At most one symbol: no completeness is needed. */
  lemma {:induction false} FewSymbolsAccepted(sizes: seq<nat>, num: seq<int>, max: nat)
    requires |num| == 33 && 1 <= max <= 15 && forall l: nat | 1 <= l <= max :: Count(sizes, l) == num[l]
    requires forall x | 0 <= x < |sizes| :: sizes[x] <= max
    requires Codes(num, max) <= 1
    ensures Accepted(sizes)
  {
    UsedIsCodes(sizes, num, max);
    NoneUsedAbove(sizes, max, 15);
  }

  lemma {:induction false} NoneUsedAbove(sizes: seq<nat>, max: nat, hi: nat)
    requires max <= hi && forall x | 0 <= x < |sizes| :: sizes[x] <= max
    ensures Used(sizes, hi) == Used(sizes, max)
  {
    if max < hi {
      NoneUsedAbove(sizes, max, hi - 1);
      CountAbove(sizes, hi);
    }
  }

  /** Every length's next code, after the codes of the first `i` symbols. */
  ghost predicate NextFree(nextCode: seq<nat>, ls: seq<nat>, i: nat, max: nat)
    requires i <= |ls| && max < |nextCode|
  {
    forall l: nat | 1 <= l <= max :: nextCode[l] == FirstCode(ls, l) + Count(ls[..i], l)
  }

  lemma {:induction false} CodeIsNext(nextCode: seq<nat>, ls: seq<nat>, i: nat, max: nat)
    requires i < |ls| && ls[i] <= max < |nextCode| && NextFree(nextCode, ls, i, max)
    ensures ls[i] > 0 ==> nextCode[ls[i]] == CodeOf(ls, i)
    ensures NextFree(if ls[i] == 0 then nextCode else nextCode[ls[i] := nextCode[ls[i]] + 1], ls, i + 1, max)
  {
    hide FirstCode, Count;
    CodeTaken(ls, i);
  }

  lemma {:induction false} NothingTaken(ls: seq<nat>)
    ensures forall l: nat :: Count(ls[..0], l) == 0
  {
  }

  /** The codes of all symbols, from their lengths and the histogram. */
  method AssignCodes(sizes: array<nat>, num: array<int>, max: nat, codes: array<nat>)
    requires num.Length == 33 && 1 <= max <= 15 && codes.Length == sizes.Length && codes != sizes
    requires forall l: nat | 1 <= l <= max :: Count(sizes[..], l) == num[l]
    requires forall x | 0 <= x < sizes.Length :: sizes[x] <= max
    modifies codes
    ensures forall s | 0 <= s < sizes.Length && sizes[s] > 0 :: codes[s] == Transmitted(sizes[..], s)
  {
    hide Count, FirstCode, CodeOf;
    ghost var ls := sizes[..];
    var nextCode := EncoderNextCodes(num, max, ls);
    var i := 0;
    NothingTaken(ls);
    while i < sizes.Length
      invariant 0 <= i <= sizes.Length && sizes[..] == ls && NextFree(nextCode[..], ls, i, max)
      invariant forall s | 0 <= s < i && ls[s] > 0 :: codes[s] == Transmitted(ls, s)
    {
      var codeSize := sizes[i];
      ghost var before := nextCode[..];
      CodeIsNext(before, ls, i, max);
      if codeSize != 0 {
        var code := nextCode[codeSize];
        nextCode[codeSize] := code + 1;
        assert nextCode[..] == before[codeSize := code + 1];
        codes[i] := ReverseBits(code, codeSize);
      }
      i := i + 1;
    }
  }

  method EncoderNextCodes(num: array<int>, max: nat, ghost sizes: seq<nat>) returns (nextCode: array<nat>)
    requires num.Length == 33 && 1 <= max <= 15 && forall l: nat | 1 <= l <= max :: Count(sizes, l) == num[l]
    ensures fresh(nextCode) && nextCode.Length == 33
    ensures forall l: nat | 1 <= l <= max :: nextCode[l] == FirstCode(sizes, l)
  {
    nextCode := new nat[33](_ => 0);
    var j: nat, i: nat := 0, 2;
    while i <= max
      invariant 2 <= i <= max + 1 && j == FirstCode(sizes, i - 1)
      invariant forall l: nat | 1 <= l < i :: nextCode[l] == FirstCode(sizes, l)
    {
      assert num[i - 1] == Count(sizes, i - 1);
      j := (j + num[i - 1]) * 2;
      nextCode[i] := j;
      i := i + 1;
    }
  }

  /** Lengths a minimum-redundancy coder produces: none, one of one bit, or a complete code. */
  ghost predicate CoderLengths(ls: seq<nat>) {
    && AtMost(ls, 32) && (forall i | 0 <= i < |ls| :: ls[i] >= 1)
    && (|ls| == 1 ==> ls[0] == 1)
    && (|ls| >= 2 ==> KraftSum(ls, 32) == Pow2(32))
  }

  /** Their histogram meets what the limiter needs. */
  lemma {:induction false} LimitPossible(num: seq<int>, ls: seq<nat>, max: nat)
    requires IsHistogram(num, ls) && CoderLengths(ls) && 1 <= max <= 32 && |ls| <= Pow2(max)
    ensures Counts(num)
    ensures |ls| > 1 ==> Kraft(num, 32, 32) == Pow2(32) && Codes(num, 32) <= Pow2(max)
    ensures Codes(num, 32) == |ls| && (|ls| <= 1 ==> Codes(num, max) == |ls|)
  {
    HistogramSums(num, ls);
    if |ls| == 1 {
      CountDrop(ls, 1);
      assert num[1] == 1;
      SymbolLeft(num, 1, max);
      SymbolLeft(num, max, 32);
      assert Codes(num, 1) == Codes(num, 0) + num[1];
    } else if |ls| == 0 {
      SymbolLeft(num, max, 32);
      SymbolLeft(num, 0, max);
    }
  }

  /** The coder changes keys only: the symbols stay where sorting put them. */
  lemma {:induction false} SameSymbols(s: seq<SymFreq>, t: seq<SymFreq>)
    requires |s| == |t| && forall i | 0 <= i < |s| :: t[i].sym == s[i].sym
    requires DistinctSyms(s)
    ensures DistinctSyms(t)
  {
  }

  lemma {:induction false} SameFrequencies(counts: seq<Word16>, s: seq<SymFreq>, t: seq<SymFreq>)
    requires |s| == |t| && (forall i | 0 <= i < |s| :: t[i].sym == s[i].sym) && ByFrequency(counts, s)
    ensures ByFrequency(counts, t)
  {
  }

  lemma {:induction false} CoderResult(ws: seq<nat>, ls: seq<nat>)
    requires |ws| == |ls| && (|ls| == 1 ==> ls[0] == 1) && (|ls| >= 2 ==> MinimumRedundancyCode(ws, ls))
    ensures CoderLengths(ls)
  {
    hide MinimumRedundant, KraftSum;
  }

  lemma {:induction false} CompleteAccepted(sizes: seq<nat>)
    requires CompleteCode(sizes)
    ensures Accepted(sizes)
  {
  }

  lemma {:induction false} ExactlyTheUsed(counts: seq<Word16>, syms: seq<SymFreq>, sizes: seq<nat>)
    requires |counts| == |sizes| <= 0x10000
    requires forall i | 0 <= i < |syms| :: syms[i].sym < |counts| && counts[syms[i].sym] > 0
    requires forall s: Word16 | s < |counts| && counts[s] > 0 :: exists i :: 0 <= i < |syms| && syms[i].sym == s
    requires forall x | 0 <= x < |sizes| :: sizes[x] > 0 <==> exists q :: 0 <= q < |syms| && syms[q].sym == x
    ensures forall s: Word16 | s < |counts| :: sizes[s] > 0 <==> counts[s] > 0
  {
  }

  /** A more frequent symbol has no longer code. */
  ghost predicate FrequentShorter(counts: seq<Word16>, sizes: seq<nat>) {
    |counts| == |sizes|
    && forall a, b | 0 <= a < |counts| && 0 <= b < |counts| :: counts[a] > counts[b] > 0 ==> sizes[a] <= sizes[b]
  }

  lemma {:induction false} MoreFrequentShorter(counts: seq<Word16>, syms: seq<SymFreq>, sizes: seq<nat>)
    requires |counts| == |sizes| <= 0x10000 && ByFrequency(counts, syms) && LaterShorter(sizes, syms, 0)
    requires forall s: Word16 | s < |counts| && counts[s] > 0 :: exists i :: 0 <= i < |syms| && syms[i].sym == s
    ensures FrequentShorter(counts, sizes)
  {
    forall a, b | 0 <= a < |counts| && 0 <= b < |counts| && counts[a] > counts[b] > 0
      ensures sizes[a] <= sizes[b]
    {
      var x: Word16, y: Word16 := a, b;
      var i :| 0 <= i < |syms| && syms[i].sym == x;
      var j :| 0 <= j < |syms| && syms[j].sym == y;
    }
  }

  // ---------------------------------------------------------------- how good the limited code is

  /** Lengths of some code of at most 15 bits for all symbols. */
  ghost predicate SomeCode(g: seq<nat>) {
    AtMost(g, LIMIT) && KraftSum(g, LIMIT) <= Pow2(LIMIT) && forall i | 0 <= i < |g| :: g[i] >= 1
  }

  /** No code beats these lengths by much: 0.91 bits for each symbol coded, 0.09 if at most 30 symbols occur. */
  ghost predicate NearlyOptimal(counts: seq<Word16>, sizes: seq<nat>) {
    && |counts| == |sizes| <= 0x10000
    && forall g: seq<nat> | |g| == |counts| && SomeCode(g) ::
      100 * CostOf(counts, sizes) <= 100 * CostOf(counts, g) + Percent(UsedCount(counts)) * Total(counts)
  }

  /** Descending lengths are those of their histogram, longest first. */
  lemma {:induction false} SpreadOfHistogram(num: seq<int>, ls: seq<nat>)
    requires IsHistogram(num, ls) && Counts(num) && Descending(ls) && AtMost(ls, 32) && forall i | 0 <= i < |ls| :: ls[i] >= 1
    ensures Spread(num, 32) == ls
    decreases |ls|
  {
    hide Spread, Count;
    if ls == [] {
      NoLengths(num);
      SpreadGap(num, 0, 32);
      SpreadNone(num);
    } else {
      var v := ls[0];
      var num' := num[v := num[v] - 1];
      CountDrop(ls, v);
      HistogramDrop(num, ls);
      SpreadOfHistogram(num', ls[1..]);
      forall j | v < j <= 32
        ensures num[j] == 0
      {
        CountAbove(ls, j);
      }
      SpreadOneLess(num, v);
      assert ls == [v] + ls[1..];
    }
  }

  lemma NoLengths(num: seq<int>)
    requires IsHistogram(num, [])
    ensures forall j | 0 < j <= 32 :: num[j] == 0
  {
  }

  lemma {:induction false} SpreadOneLess(num: seq<int>, v: nat)
    requires Counts(num) && 0 < v <= 32 && num[v] > 0 && forall j | v < j <= 32 :: num[j] == 0
    ensures Spread(num, 32) == [v] + Spread(num[v := num[v] - 1], 32)
  {
    hide Spread;
    var num' := num[v := num[v] - 1];
    SpreadGap(num, v, 32);
    SpreadGap(num', v, 32);
    SpreadOne(num, v);
    SpreadOne(num', v);
    SpreadSame(num, num', v - 1);
    assert Copies(v, num[v]) == [v] + Copies(v, num[v] - 1);
    var rest := Spread(num, v - 1);
    assert [v] + Copies(v, num[v] - 1) + rest == [v] + (Copies(v, num[v] - 1) + rest);
  }

  lemma SpreadNone(num: seq<int>)
    requires Counts(num)
    ensures Spread(num, 0) == []
  {
  }

  /** Folding at the limit caps the lengths. */
  lemma {:induction false} SpreadOfFolded(num: seq<int>)
    requires Counts(num) && Counts(Folded(num, LIMIT))
    ensures Spread(Folded(num, LIMIT), LIMIT) == Capped(Spread(num, 32))
  {
    hide Spread, Codes;
    var f := Folded(num, LIMIT);
    var z := Spread(num, 32);
    SpreadShape(num, 32);
    SpreadShape(num, LIMIT - 1);
    SpreadSplit(num, LIMIT - 1, 32);
    SpreadOne(f, LIMIT);
    SpreadSame(num, f, LIMIT - 1);
    OneLengthMore(num, LIMIT);
    var d := Codes(num, 32) - Codes(num, LIMIT - 1);
    assert z == z[..d] + Spread(num, LIMIT - 1);
  }

  lemma OneLengthMore(num: seq<int>, l: nat)
    requires 0 < l < |num|
    ensures Codes(num, l) == Codes(num, l - 1) + num[l]
  {
  }

  /** The facts about one table from which its cost follows. */
  ghost predicate Costed(counts: seq<Word16>, sorted: seq<SymFreq>, ls: seq<nat>, z: seq<nat>, sizes: seq<nat>) {
    && |counts| == |sizes| <= 0x10000 && AtMost(sizes, LIMIT)
    && multiset(sorted) == multiset(UsedEntries(counts, |counts|))
    && |ls| == |sorted| && Dealt(sizes, sorted, z, 0)
    && (|ls| >= 2 ==>
      && MinimumRedundancyCode(Frequencies(sorted), ls) && LongIsRare(Frequencies(sorted), ls)
      && exists turns: nat :: Reached(Capped(ls), z, LIMIT, turns) && (turns == 0 || turns < |ls|))
    && (|ls| == 1 ==> z == [1])
  }

  lemma {:induction false} CheapCode(counts: seq<Word16>, sorted: seq<SymFreq>, ls: seq<nat>, z: seq<nat>, sizes: seq<nat>)
    requires Costed(counts, sorted, ls, z, sizes) && |ls| <= 286
    ensures NearlyOptimal(counts, sizes)
  {
    hide CostOf, Total, UsedEntries, KraftSum, WeightedTotal, Pow2, Sum, Reached, LongIsRare, EntryCost, EntryKraft, Percent;
    var f := Frequencies(sorted);
    SortedSum(counts, sorted);
    SortedCost(counts, sorted, sizes, LIMIT);
    DealtCost(sorted, sizes, z);
    forall g: seq<nat> | |g| == |counts| && SomeCode(g)
      ensures 100 * CostOf(counts, sizes) <= 100 * CostOf(counts, g) + Percent(UsedCount(counts)) * Total(counts)
    {
      SortedCost(counts, sorted, g, LIMIT);
      if |ls| >= 2 {
        var turns: nat :| Reached(Capped(ls), z, LIMIT, turns) && (turns == 0 || turns < |ls|);
        DealtAtMost(sorted, sizes, z);
        LimitIsCheap(f, ls, z, turns);
        PickedCode(sorted, g);
        NoneCheaper(f, ls, Picked(sorted, g));
      } else {
        FewCost(sorted, g, z);
        assert Percent(UsedCount(counts)) * Total(counts) >= 0;
      }
    }
  }

  lemma DealtCost(sorted: seq<SymFreq>, sizes: seq<nat>, z: seq<nat>)
    requires Dealt(sizes, sorted, z, 0)
    ensures EntryCost(sorted, sizes) == WeightedTotal(Frequencies(sorted), z)
  {
    assert Picked(sorted, sizes) == z;
  }

  lemma DealtAtMost(sorted: seq<SymFreq>, sizes: seq<nat>, z: seq<nat>)
    requires Dealt(sizes, sorted, z, 0) && AtMost(sizes, LIMIT)
    ensures AtMost(z, LIMIT)
  {
  }

  lemma PickedCode(sorted: seq<SymFreq>, g: seq<nat>)
    requires SymsBelow(sorted, |g|) && AtMost(g, LIMIT) && EntryKraft(sorted, g, LIMIT) <= Pow2(LIMIT)
    ensures IsPrefixCode(Picked(sorted, g), LIMIT)
    ensures EntryCost(sorted, g) == WeightedTotal(Frequencies(sorted), Picked(sorted, g))
  {
    hide Pow2, KraftSum, WeightedTotal;
  }

  lemma NoneCheaper(f: seq<nat>, ls: seq<nat>, ks: seq<nat>)
    requires MinimumRedundancyCode(f, ls) && |ks| == |f| && IsPrefixCode(ks, LIMIT)
    ensures WeightedTotal(f, ls) <= WeightedTotal(f, ks)
  {
    hide KraftSum, Pow2, WeightedTotal;
  }

  /** With one symbol its code has the least length there is. */
  lemma FewCost(sorted: seq<SymFreq>, g: seq<nat>, z: seq<nat>)
    requires |z| == |sorted| < 2 && SymsBelow(sorted, |g|) && (|z| == 1 ==> z == [1])
    requires forall i | 0 <= i < |g| :: g[i] >= 1
    ensures WeightedTotal(Frequencies(sorted), z) <= EntryCost(sorted, g)
  {
    TotalMonotone(Frequencies(sorted), z, Picked(sorted, g));
  }

  // ---------------------------------------------------------------- the limited code exactly

  /** The lengths: those of a minimum-redundancy code for the used symbols in stable order, brought down to the limit and
      dealt out again, the longest to the least frequent. */
  ghost predicate LimitedAs(counts: seq<Word16>, max: nat, sizes: seq<nat>, sorted: seq<SymFreq>, ls: seq<nat>,
                            start: seq<int>, limited: seq<int>)
  {
    && 0 < max <= 15 && |counts| == |sizes| <= 0x10000 && AtMost(sizes, max)
    && StableSort(UsedEntries(counts, |counts|), sorted)
    && MinimumRedundancyCode(Frequencies(sorted), ls) && IsHistogram(start, ls) && Counts(start) && Counts(limited)
    && Enforced(start, limited, max) && Dealt(sizes, sorted, Spread(limited, max), 0)
  }

  /** The only symbol has one bit. */
  ghost predicate LimitedCode(counts: seq<Word16>, max: nat, sizes: seq<nat>) {
    if |counts| == |sizes| <= 0x10000 && UsedCount(counts) >= 2 then
      exists sorted: seq<SymFreq>, ls: seq<nat>, start: seq<int>, limited: seq<int> ::
        LimitedAs(counts, max, sizes, sorted, ls, start, limited)
    else |counts| == |sizes| <= 0x10000 && forall s | 0 <= s < |counts| && counts[s] > 0 :: sizes[s] == 1
  }

  /** The coder leaves the lengths in place of the frequencies. */
  lemma {:induction false} LengthsLimited(counts: seq<Word16>, max: nat, sizes: seq<nat>, sorted: seq<SymFreq>,
                                          entries: seq<SymFreq>, start: seq<int>, limited: seq<int>)
    requires 0 < max <= 15 && |counts| == |sizes| <= 0x10000 && AtMost(sizes, max)
    requires LengthsFor(counts, entries) && |entries| == UsedCount(counts)
    requires |sorted| == |entries| && forall i | 0 <= i < |sorted| :: sorted[i].sym == entries[i].sym
    requires StableSort(UsedEntries(counts, |counts|), sorted) && IsHistogram(start, Frequencies(entries))
    requires Counts(start) && Counts(limited) && Dealt(sizes, entries, Spread(limited, max), 0)
    requires |entries| >= 2 ==>
               MinimumRedundancyCode(Frequencies(sorted), Frequencies(entries)) && Enforced(start, limited, max)
    requires |entries| <= 1 ==> limited == start
    ensures LimitedCode(counts, max, sizes)
  {
    hide StableSort, UsedEntries, MinimumRedundancyCode, IsHistogram, Enforced, Spread, CoderLengths, ByFrequency, DistinctSyms;
    if |entries| >= 2 {
      assert LimitedAs(counts, max, sizes, sorted, Frequencies(entries), start, limited);
    } else {
      OneBitCode(counts, max, sizes, entries, start);
    }
  }

  lemma {:induction false} OneBitCode(counts: seq<Word16>, max: nat, sizes: seq<nat>, entries: seq<SymFreq>, start: seq<int>)
    requires |counts| == |sizes| <= 0x10000 && |entries| == UsedCount(counts) <= 1 && CoderLengths(Frequencies(entries))
    requires forall s: Word16 | s < |counts| && counts[s] > 0 :: exists i :: 0 <= i < |entries| && entries[i].sym == s
    requires IsHistogram(start, Frequencies(entries)) && Counts(start) && 0 < max <= 15 && Dealt(sizes, entries, Spread(start, max), 0)
    ensures LimitedCode(counts, max, sizes)
  {
    hide Spread, UsedEntries, IsHistogram, Counts;
    if |entries| == 1 {
      OneCodeHistogram(start, Frequencies(entries));
      OneCodeSpread(start, max);
    }
    forall s | 0 <= s < |counts| && counts[s] > 0
      ensures sizes[s] == 1
    {
      var w: Word16 := s;
      assert entries[0].sym == w;
    }
  }

  /** Without a length above the limit nothing is changed. */
  lemma {:induction false} NothingEnforced(start: seq<int>, limited: seq<int>, ls: seq<nat>, max: nat)
    requires IsHistogram(start, ls) && Counts(start) && 0 < max <= 15 && Enforced(start, limited, max)
    requires AtMost(ls, max) && KraftSum(ls, 32) == Pow2(32) && AtMost(ls, 32) && Descending(ls)
    requires forall i | 0 <= i < |ls| :: ls[i] >= 1
    ensures limited == start && Spread(start, max) == ls
  {
    hide Spread, Codes, Kraft, KraftSum, Pow2, Turned;
    forall l: nat | max < l <= 32
      ensures start[l] == 0
    {
      CountAbove(ls, l);
    }
    HistogramSums(start, ls);
    SpreadOfHistogram(start, ls);
    SpreadGap(start, max, 32);
    SpreadShape(start, max);
    SpreadShape(start, 32);
    FoldedSums(start, max);
  }

  /** Within the limit the lengths are the best there are. */
  lemma {:induction false} OptimalWithinLimit(counts: seq<Word16>, max: nat, sizes: seq<nat>, sorted: seq<SymFreq>, ls: seq<nat>,
                                              start: seq<int>, limited: seq<int>, g: seq<nat>, scale: nat)
    requires LimitedAs(counts, max, sizes, sorted, ls, start, limited) && AtMost(ls, max)
    requires |g| == |counts| && IsPrefixCode(g, scale)
    ensures CostOf(counts, sizes) <= CostOf(counts, g)
  {
    hide Enforced, CostOf, Total, UsedEntries, KraftSum, WeightedTotal, Pow2, Spread, StableSort;
    StableSortPermutes(UsedEntries(counts, |counts|), sorted);
    NothingEnforced(start, limited, ls, max);
    SortedCost(counts, sorted, sizes, max);
    SortedCost(counts, sorted, g, scale);
    DealtCost(sorted, sizes, ls);
    assert IsPrefixCode(Picked(sorted, g), scale);
  }

  /** The code lengths of the used symbols: a limited, complete code, or a single one-bit code. */
  method OptimizeLengths(counts: seq<Word16>, max: nat, sizes: array<nat>) returns (num: array<int>)
    requires |counts| == sizes.Length <= 0x10000 && Total(counts) < 0x10000
    requires 1 <= max <= 15 && UsedCount(counts) <= Pow2(max)
    modifies sizes
    ensures fresh(num) && num.Length == 33
    ensures forall l: nat | 1 <= l <= max :: Count(sizes[..], l) == num[l]
    ensures forall s: Word16 | s < |counts| :: sizes[s] <= max && (sizes[s] > 0 <==> counts[s] > 0)
    ensures UsedCount(counts) >= 2 ==> CompleteCode(sizes[..])
    ensures Accepted(sizes[..]) && FrequentShorter(counts, sizes[..])
    ensures LimitedCode(counts, max, sizes[..])
    ensures max == LIMIT && UsedCount(counts) <= 286 ==> NearlyOptimal(counts, sizes[..])
  {
    hide StableSort, Enforced, LimitedCode, Spread, Dealt, NearlyOptimal, LimitedFrom, MinimumRedundancyCode, LongIsRare, CoderLengths,
      IsHistogram, Counts, Kraft, Codes, Pow2, CompleteCode, Accepted, Count, DistinctSyms, Total, UsedEntries, ByFrequency,
      FrequentShorter, HandedOut;
    var used, syms;
    ghost var sorted;
    used, syms, sorted := UsedLengths(counts);
    ghost var entries := syms[..used];
    num := LengthHistogram(syms, used);
    ghost var start := num[..];
    LimitPossible(num[..], Frequencies(entries), max);
    EnforceMaxCodeSize(num, used, max);
    ghost var limited := num[..];
    forall i | 0 <= i < sizes.Length {
      sizes[i] := 0;
    }
    assert num[..] == limited && syms[..used] == entries;
    HandOut(syms, used, num, max, sizes);
    assert syms[..used] == entries;
    TableDone(counts, max, sizes[..], sorted, entries, start, limited);
    assert forall l: nat | l <= 32 :: num[l] == limited[l];
  }

  /** What the steps leave is the table as it should be. */
  lemma {:induction false} TableDone(counts: seq<Word16>, max: nat, sizes: seq<nat>, sorted: seq<SymFreq>, entries: seq<SymFreq>,
                                     start: seq<int>, limited: seq<int>)
    requires 1 <= max <= 15 && |counts| == |sizes| <= 0x10000 && LengthsFor(counts, entries) && |entries| == UsedCount(counts)
    requires StableSort(UsedEntries(counts, |counts|), sorted) && multiset(sorted) == multiset(UsedEntries(counts, |counts|))
    requires |sorted| == |entries| && forall i | 0 <= i < |sorted| :: sorted[i].sym == entries[i].sym
    requires IsHistogram(start, Frequencies(entries)) && Counts(start) && Counts(limited) && Codes(limited, max) == |entries|
    requires HandedOut(sizes, entries, limited, max) && Dealt(sizes, entries, Spread(limited, max), 0)
    requires |entries| >= 2 ==>
               && MinimumRedundancyCode(Frequencies(sorted), Frequencies(entries)) && LongIsRare(Frequencies(sorted), Frequencies(entries))
               && Codes(start, 32) == |entries| && Kraft(limited, max, max) == Pow2(max)
               && Enforced(start, limited, max) && LimitedFrom(start, limited, max)
    requires |entries| <= 1 ==> limited == start
    ensures |limited| == 33 && forall l: nat | 1 <= l <= max :: Count(sizes, l) == limited[l]
    ensures forall s: Word16 | s < |counts| :: sizes[s] <= max && (sizes[s] > 0 <==> counts[s] > 0)
    ensures UsedCount(counts) >= 2 ==> CompleteCode(sizes)
    ensures Accepted(sizes) && FrequentShorter(counts, sizes)
    ensures LimitedCode(counts, max, sizes)
    ensures max == LIMIT && UsedCount(counts) <= 286 ==> NearlyOptimal(counts, sizes)
  {
    hide StableSort, Enforced, LimitedCode, Spread, Dealt, NearlyOptimal, LimitedFrom, MinimumRedundancyCode, LongIsRare, CoderLengths,
      IsHistogram, Counts, Kraft, Codes, Pow2, CompleteCode, Accepted, Count, DistinctSyms, UsedEntries, ByFrequency, LaterShorter,
      FrequentShorter;
    ExactlyTheUsed(counts, entries, sizes);
    MoreFrequentShorter(counts, entries, sizes);
    LengthsLimited(counts, max, sizes, sorted, entries, start, limited);
    if |entries| > 1 {
      HistogramComplete(sizes, limited, max);
      CompleteAccepted(sizes);
    } else {
      FewSymbolsAccepted(sizes, limited, max);
    }
    if max == LIMIT && |entries| <= 286 {
      CodeCosted(counts, sorted, entries, start, limited, sizes);
      CheapCode(counts, sorted, Frequencies(entries), Spread(limited, LIMIT), sizes);
    }
  }

  /** What the steps leave is what the cost follows from. */
  lemma {:induction false} CodeCosted(counts: seq<Word16>, sorted: seq<SymFreq>, entries: seq<SymFreq>, start: seq<int>,
                                      limited: seq<int>, sizes: seq<nat>)
    requires |counts| == |sizes| <= 0x10000 && AtMost(sizes, LIMIT) && CoderLengths(Frequencies(entries))
    requires multiset(sorted) == multiset(UsedEntries(counts, |counts|))
    requires |sorted| == |entries| && forall i | 0 <= i < |sorted| :: sorted[i].sym == entries[i].sym
    requires |entries| >= 2 ==> MinimumRedundancyCode(Frequencies(sorted), Frequencies(entries))
    requires |entries| >= 2 ==> LongIsRare(Frequencies(sorted), Frequencies(entries))
    requires IsHistogram(start, Frequencies(entries)) && Counts(limited) && Dealt(sizes, entries, Spread(limited, LIMIT), 0)
    requires |entries| >= 2 ==> Codes(start, 32) == |entries| && LimitedFrom(start, limited, LIMIT)
    requires |entries| <= 1 ==> limited == start
    ensures Costed(counts, sorted, Frequencies(entries), Spread(limited, LIMIT), sizes)
  {
    hide Spread, KraftSum, Pow2, Kraft, Codes, Count, UsedEntries, MinimumRedundant, LongIsRare, Reached;
    var ls, z := Frequencies(entries), Spread(limited, LIMIT);
    if |ls| >= 2 {
      SpreadOfHistogram(start, ls);
      SpreadOfFolded(start);
      var turns: nat := Kraft(Folded(start, LIMIT), LIMIT, LIMIT) - Pow2(LIMIT);
      assert Reached(Capped(ls), z, LIMIT, turns);
    } else if |ls| == 1 {
      OneCodeHistogram(start, ls);
      OneCodeSpread(start, LIMIT);
    }
  }

  lemma {:induction false} OneCodeHistogram(num: seq<int>, ls: seq<nat>)
    requires IsHistogram(num, ls) && ls == [1]
    ensures forall l | 1 <= l <= 32 :: num[l] == if l == 1 then 1 else 0
  {
    forall l: nat | 1 <= l <= 32
      ensures num[l] == if l == 1 then 1 else 0
    {
      CountDrop(ls, l);
    }
  }

  lemma {:induction false} OneCodeSpread(num: seq<int>, max: nat)
    requires 0 < max <= 32 && Counts(num) && forall l | 1 <= l <= 32 :: num[l] == if l == 1 then 1 else 0
    ensures Spread(num, max) == [1]
  {
    SpreadGap(num, 1, max);
    assert Copies(1, 1) == [1];
  }

  /** The used symbols with their counts, least frequent first. */
  ghost predicate SortedFor(counts: seq<Word16>, r: seq<SymFreq>) {
    && |counts| <= 0x10000 && Ascending(Frequencies(r)) && Sum(Frequencies(r)) < 0x10000 && DistinctSyms(r)
    && (forall i | 0 <= i < |r| :: r[i].sym < |counts| && r[i].key == counts[r[i].sym] >= 1)
    && (forall s: Word16 | s < |counts| && counts[s] > 0 :: exists i :: 0 <= i < |r| && r[i].sym == s)
    && ByFrequency(counts, r)
  }

  /** Their lengths in place of the counts. */
  ghost predicate LengthsFor(counts: seq<Word16>, t: seq<SymFreq>) {
    && |counts| <= 0x10000 && CoderLengths(Frequencies(t)) && DistinctSyms(t)
    && (forall i | 0 <= i < |t| :: t[i].key <= 32 && t[i].sym < |counts| && counts[t[i].sym] > 0)
    && (forall s: Word16 | s < |counts| && counts[s] > 0 :: exists i :: 0 <= i < |t| && t[i].sym == s)
    && ByFrequency(counts, t)
  }

  lemma {:induction false} CodedLengths(counts: seq<Word16>, s: seq<SymFreq>, t: seq<SymFreq>)
    requires SortedFor(counts, s) && |t| == |s| && forall i | 0 <= i < |s| :: t[i].sym == s[i].sym
    requires |s| == 1 ==> t[0].key == 1
    requires |s| >= 2 ==> MinimumRedundancyCode(Frequencies(s), Frequencies(t))
    ensures LengthsFor(counts, t)
  {
    hide Ascending, Sum, MinimumRedundancyCode, DistinctSyms, ByFrequency;
    SameSymbols(s, t);
    SameFrequencies(counts, s, t);
    CoderResult(Frequencies(s), Frequencies(t));
    assert forall i | 0 <= i < |t| :: Frequencies(t)[i] == t[i].key;
  }

  /** Collects and sorts the used symbols. */
  method SortUsed(counts: seq<Word16>) returns (used: nat, syms: array<SymFreq>)
    requires |counts| <= 0x10000 && Total(counts) < 0x10000
    ensures fresh(syms) && used == UsedCount(counts) <= syms.Length && SortedFor(counts, syms[..used])
    ensures StableSort(UsedEntries(counts, |counts|), syms[..used])
    ensures multiset(syms[..used]) == multiset(UsedEntries(counts, |counts|))
  {
    hide StableSort, Ascending, UsedEntries, Total, Sum, DistinctSyms, ByFrequency;
    var syms0 := new SymFreq[|counts|](_ => SymFreq(0, 0));
    var syms1 := new SymFreq[|counts|](_ => SymFreq(0, 0));
    used := CollectUsed(counts, syms0);
    syms := RadixSortSyms(used, syms0, syms1);
    SortedEntries(counts, syms[..used]);
    StableSortPermutes(UsedEntries(counts, |counts|), syms[..used]);
  }

  /** The used symbols, least frequent first, each with the length the minimum-redundancy coder gives it. */
  method UsedLengths(counts: seq<Word16>) returns (used: nat, syms: array<SymFreq>, ghost sorted: seq<SymFreq>)
    requires |counts| <= 0x10000 && Total(counts) < 0x10000
    ensures fresh(syms) && used == UsedCount(counts) <= syms.Length && LengthsFor(counts, syms[..used])
    ensures multiset(sorted) == multiset(UsedEntries(counts, |counts|))
    ensures StableSort(UsedEntries(counts, |counts|), sorted)
    ensures |sorted| == used && forall i | 0 <= i < used :: sorted[i].sym == syms[i].sym
    ensures used >= 2 ==> MinimumRedundancyCode(Frequencies(sorted), Frequencies(syms[..used]))
    ensures used >= 2 ==> LongIsRare(Frequencies(sorted), Frequencies(syms[..used]))
  {
    hide StableSort, Ascending, Sum, MinimumRedundancyCode, LongIsRare, LengthsFor, ByFrequency, DistinctSyms, Total, UsedEntries;
    used, syms := SortUsed(counts);
    sorted := syms[..used];
    CalculateMinimumRedundancy(syms, used);
    CodedLengths(counts, sorted, syms[..used]);
  }

  /** The whole table: limited code lengths for exactly the symbols that occur, and their canonical codes. */
  method OptimizeHuffmanTable(counts: seq<Word16>, max: nat, sizes: array<nat>, codes: array<nat>)
    requires |counts| == sizes.Length == codes.Length <= 0x10000 && Total(counts) < 0x10000 && sizes != codes
    requires 1 <= max <= 15 && UsedCount(counts) <= Pow2(max)
    modifies sizes, codes
    ensures forall s: Word16 | s < |counts| :: sizes[s] <= max && (sizes[s] > 0 <==> counts[s] > 0)
    ensures UsedCount(counts) >= 2 ==> CompleteCode(sizes[..])
    ensures Accepted(sizes[..]) && FrequentShorter(counts, sizes[..])
    ensures LimitedCode(counts, max, sizes[..])
    ensures max == LIMIT && UsedCount(counts) <= 286 ==> NearlyOptimal(counts, sizes[..])
    ensures forall s | 0 <= s < |counts| && sizes[s] > 0 :: codes[s] == Transmitted(sizes[..], s)
  {
    hide UsedEntries, Total, CompleteCode, Accepted, Transmitted, FrequentShorter, NearlyOptimal, LimitedCode;
    var num := OptimizeLengths(counts, max, sizes);
    assert forall x: Word16 | x < |counts| :: sizes[x] <= max;
    AssignCodes(sizes, num, max, codes);
  }

  /** A stream that begins with the transmitted code of `s` starts with `s`. */
  lemma {:induction false} CodeStartsStream(sizes: seq<nat>, s: nat, rest: nat)
    requires s < |sizes| && sizes[s] > 0
    ensures Starts(sizes, s, Transmitted(sizes, s) + rest * Pow2(sizes[s]))
  {
    DivModUnique(Transmitted(sizes, s) + rest * Pow2(sizes[s]), Pow2(sizes[s]), rest, Transmitted(sizes, s));
  }

  lemma {:induction false} TransmittedFits(sizes: seq<nat>, s: nat)
    requires s < |sizes|
    ensures Transmitted(sizes, s) < Pow2(sizes[s])
  {
  }
}
