/** Deflate streams taken apart bit by bit: one dynamic block with all kinds of code lengths, literals and matches with
    extra bits; and a stream of a stored block and one with fixed codes. What is proved of them names numbers only. */
module DeflateExample {
  import opened Powers
  import opened Bits
  import opened LzCodes
  import opened BitStream
  import opened CanonicalCode
  import opened InflateBudget
  import opened CodeLengthPacking
  import opened DeflateSymbols
  import opened DeflateCodes
  import opened DeflateHeader
  import opened DeflateBlock
  import opened DeflateStream
  import opened InflateReader
  import opened InflateExact
  import opened InflateStream

  // ---------------------------------------------------------------- codes of one length

  /** Exactly the symbols of `used`, in order, have a code, and all of length `n`; there are codes for all of them. */
  ghost predicate Uniform(sizes: seq<nat>, n: nat, used: seq<nat>) {
    && 1 <= n <= 15 && |used| == Pow2(n)
    && (forall k | 0 <= k < |used| :: used[k] < |sizes| && sizes[used[k]] == n)
    && (forall k | 0 < k < |used| :: used[k - 1] < used[k])
    && (forall s | 0 <= s < |sizes| :: sizes[s] == 0 || (sizes[s] == n && s in used))
  }

  lemma {:induction false} CountOther(sizes: seq<nat>, l: nat)
    requires forall s | 0 <= s < |sizes| :: sizes[s] != l
    ensures Count(sizes, l) == 0
  {
    if sizes != [] {
      CountOther(sizes[..|sizes| - 1], l);
    }
  }

  lemma {:induction false} Ascending(used: seq<nat>, i: nat, j: nat)
    requires i < j < |used| && forall k | 0 < k < |used| :: used[k - 1] < used[k]
    ensures used[i] < used[j]
    decreases j
  {
    if i < j - 1 {
      Ascending(used, i, j - 1);
    }
  }

  /** No symbol between two neighbours is used. */
  lemma {:induction false} NoneBetween(sizes: seq<nat>, n: nat, used: seq<nat>, from: nat, end: nat, k: nat)
    requires Uniform(sizes, n, used) && k <= |used| && from <= end <= |sizes|
    requires k > 0 ==> used[k - 1] < from
    requires k < |used| ==> end <= used[k]
    ensures Count(sizes[..end], n) == Count(sizes[..from], n)
  {
    forall i | 0 <= i < |used|
      ensures used[i] < from || end <= used[i]
    {
      if i < k - 1 {
        Ascending(used, i, k - 1);
      } else if k < i {
        Ascending(used, k, i);
      }
    }
    CountUniform(sizes, from, end, 0, n);
  }

  lemma {:induction false} UniformCount(sizes: seq<nat>, n: nat, used: seq<nat>, k: nat)
    requires Uniform(sizes, n, used) && k < |used|
    ensures Count(sizes[..used[k]], n) == k
  {
    if k == 0 {
      NoneBetween(sizes, n, used, 0, used[0], 0);
      assert sizes[..0] == [];
      CountOther([], n);
    } else {
      UniformCount(sizes, n, used, k - 1);
      var s := used[k - 1];
      assert sizes[..s + 1] == sizes[..s] + [sizes[s]];
      CountAppend(sizes[..s], sizes[s], n);
      NoneBetween(sizes, n, used, s + 1, used[k], k);
    }
  }

  /** The codes are the numbers of the symbols, and the code is complete. */
  lemma {:induction false} UniformCodes(sizes: seq<nat>, n: nat, used: seq<nat>)
    requires Uniform(sizes, n, used)
    ensures Accepted(sizes) && NotOversubscribed(sizes)
    ensures forall k | 0 <= k < |used| :: Transmitted(sizes, used[k]) == Rev(k, n)
  {
    forall l: nat | l != n && l > 0
      ensures Count(sizes, l) == 0
    {
      CountOther(sizes, l);
    }
    hide Count;
    FirstCodeDoubles(sizes, 1, n - 1);
    assert FirstCode(sizes, n) == 0;
    UniformTotal(sizes, n, used);
    assert FirstCode(sizes, n + 1) == 2 * Pow2(n);
    FirstCodeDoubles(sizes, n + 1, 15 - n);
    Pow2Double(n);
    Pow2Add(n + 1, 15 - n);
    hide FirstCode;
    forall k | 0 <= k < |used|
      ensures Transmitted(sizes, used[k]) == Rev(k, n)
    {
      UniformCount(sizes, n, used, k);
    }
  }

  lemma {:induction false} UniformTotal(sizes: seq<nat>, n: nat, used: seq<nat>)
    requires Uniform(sizes, n, used)
    ensures Count(sizes, n) == Pow2(n)
  {
    var k := |used| - 1;
    var s := used[k];
    UniformCount(sizes, n, used, k);
    assert sizes[..s + 1] == sizes[..s] + [sizes[s]];
    CountAppend(sizes[..s], sizes[s], n);
    NoneBetween(sizes, n, used, s + 1, |sizes|, |used|);
    assert sizes[..|sizes|] == sizes;
  }

  lemma {:induction false} UniformAt(sizes: seq<nat>, n: nat, used: seq<nat>, k: nat)
    requires Uniform(sizes, n, used) && k < |used|
    ensures used[k] < |sizes| && sizes[used[k]] == n > 0 && Transmitted(sizes, used[k]) == Rev(k, n)
    ensures NotOversubscribed(sizes)
  {
    UniformCodes(sizes, n, used);
    hide Transmitted, NotOversubscribed;
  }

  lemma CodeStarts(sizes: seq<nat>, s: nat, bits: nat)
    requires s < |sizes| && sizes[s] > 0 && bits % Pow2(sizes[s]) == Transmitted(sizes, s)
    ensures Starts(sizes, s, bits)
  {
  }

  // ---------------------------------------------------------------- single steps

  /** The stream with so many bits used up. */
  function At(bits: nat, used: nat): Source {
    Source(bits, used, 184)
  }

  lemma {:induction false} BitsAt(src: Source, n: nat, value: nat, next: Source)
    requires src.bits == value + Pow2(n) * next.bits && value < Pow2(n)
    requires next.used == src.used + n <= next.end == src.end
    ensures TakeBits(src, n) == Read(value, next)
  {
    DivModUnique(src.bits, Pow2(n), next.bits, value);
  }

  lemma {:induction false} SymbolAt(sizes: seq<nat>, n: nat, used: seq<nat>, k: nat, src: Source, next: Source)
    requires Uniform(sizes, n, used) && k < |used| && src.bits == Rev(k, n) + Pow2(n) * next.bits
    requires next.used == src.used + n <= next.end == src.end
    ensures TakeSymbol(sizes, src) == Read(used[k], next)
  {
    hide Rev, Transmitted, Uniform, NotOversubscribed, TakeSymbol, Starts, Pow2, CodeOf;
    UniformAt(sizes, n, used, k);
    DivModUnique(src.bits, Pow2(n), next.bits, Rev(k, n));
    CodeStarts(sizes, used[k], src.bits);
    OneStarts(sizes, src, used[k]);
  }

  lemma {:induction false} ThreeBits()
    ensures Rev(0, 3) == 0 && Rev(1, 3) == 4 && Rev(2, 3) == 2 && Rev(3, 3) == 6
    ensures Rev(4, 3) == 1 && Rev(5, 3) == 5 && Rev(6, 3) == 3 && Rev(7, 3) == 7
    ensures Rev(0, 1) == 0 && Rev(1, 1) == 1
  {
    SmallPowers();
  }

  // ---------------------------------------------------------------- the codes of the example

  /** Codes of three bits for the lengths 0 to 3 and 5, and for the three kinds of runs. */
  function LenSizes(): seq<nat> {
    [3, 3, 3, 3, 0, 3, 0, 0, 0, 0, 0, 0, 0, 0, 0, 0, 3, 3, 3]
  }

  const LENS_USED: seq<nat> := [0, 1, 2, 3, 5, 16, 17, 18]

  /** The letters from a to e, the end of the block, and two lengths. */
  function LitSizes(): seq<nat> {
    seq(270, i => if 97 <= i <= 101 || i == 256 || i == 265 || i == 269 then 3 else 0)
  }

  const LIT_USED: seq<nat> := [97, 98, 99, 100, 101, 256, 265, 269]

  function DistSizes(): seq<nat> {
    [0, 0, 1, 0, 1]
  }

  const DIST_USED: seq<nat> := [2, 4]

  lemma {:induction false} ExampleCodes()
    ensures Uniform(LenSizes(), 3, LENS_USED) && Uniform(LitSizes(), 3, LIT_USED) && Uniform(DistSizes(), 1, DIST_USED)
  {
    hide Uniform, LenSizes, LitSizes, DistSizes;
    LenUniform();
    LitUniform();
    DistUniform();
  }

  lemma LenUniform()
    ensures Uniform(LenSizes(), 3, LENS_USED)
  {
    SmallPowers();
  }

  lemma LitUniform()
    ensures Uniform(LitSizes(), 3, LIT_USED)
  {
    SmallPowers();
  }

  lemma DistUniform()
    ensures Uniform(DistSizes(), 1, DIST_USED)
  {
    SmallPowers();
  }

  /** One length of the code-length code. */
  lemma {:induction false} LenAt(src: Source, lens: seq<nat>, j: nat, v: nat, after: seq<nat>, next: Source)
    requires |lens| == 19 && j < 18 && after == lens[Swizzle(j) := v]
    requires src.bits == v + 8 * next.bits && v < 8 && next.used == src.used + 3 <= next.end == src.end
    ensures TakeLens(src, lens, j, 18) == TakeLens(next, after, j + 1, 18)
  {
    SmallPowers();
    hide TakeBits, Pow2;
    BitsAt(src, 3, v, next);
  }

  lemma {:induction false} ExampleLensA()
    ensures TakeLens(At(0x157ec1ca0820183d5e0bfff6eadd86180180006db, 17), [0, 0, 0, 0, 0, 0, 0, 0, 0, 0, 0, 0, 0, 0, 0, 0, 0, 0, 0], 0, 18)
         == TakeLens(At(0xabf60e504100c1eaf05fffb756ec30c00c0003, 26), [0, 0, 0, 0, 0, 0, 0, 0, 0, 0, 0, 0, 0, 0, 0, 0, 3, 3, 3], 3, 18)
  {
    hide TakeLens;
    LenAt(At(0x157ec1ca0820183d5e0bfff6eadd86180180006db, 17), [0, 0, 0, 0, 0, 0, 0, 0, 0, 0, 0, 0, 0, 0, 0, 0, 0, 0, 0], 0, 3, [0, 0, 0, 0, 0, 0, 0, 0, 0, 0, 0, 0, 0, 0, 0, 0, 3, 0, 0], At(0x2afd83941040307abc17ffedd5bb0c30030000db, 20));
    LenAt(At(0x2afd83941040307abc17ffedd5bb0c30030000db, 20), [0, 0, 0, 0, 0, 0, 0, 0, 0, 0, 0, 0, 0, 0, 0, 0, 3, 0, 0], 1, 3, [0, 0, 0, 0, 0, 0, 0, 0, 0, 0, 0, 0, 0, 0, 0, 0, 3, 3, 0], At(0x55fb0728208060f5782fffdbab761860060001b, 23));
    LenAt(At(0x55fb0728208060f5782fffdbab761860060001b, 23), [0, 0, 0, 0, 0, 0, 0, 0, 0, 0, 0, 0, 0, 0, 0, 0, 3, 3, 0], 2, 3, [0, 0, 0, 0, 0, 0, 0, 0, 0, 0, 0, 0, 0, 0, 0, 0, 3, 3, 3], At(0xabf60e504100c1eaf05fffb756ec30c00c0003, 26));
  }

  lemma {:induction false} ExampleLensB()
    ensures TakeLens(At(0xabf60e504100c1eaf05fffb756ec30c00c0003, 26), [0, 0, 0, 0, 0, 0, 0, 0, 0, 0, 0, 0, 0, 0, 0, 0, 3, 3, 3], 3, 18)
         == TakeLens(At(0x55fb0728208060f5782fffdbab7618600600, 35), [3, 0, 0, 0, 0, 0, 0, 0, 0, 0, 0, 0, 0, 0, 0, 0, 3, 3, 3], 6, 18)
  {
    hide TakeLens;
    LenAt(At(0xabf60e504100c1eaf05fffb756ec30c00c0003, 26), [0, 0, 0, 0, 0, 0, 0, 0, 0, 0, 0, 0, 0, 0, 0, 0, 3, 3, 3], 3, 3, [3, 0, 0, 0, 0, 0, 0, 0, 0, 0, 0, 0, 0, 0, 0, 0, 3, 3, 3], At(0x157ec1ca0820183d5e0bfff6eadd8618018000, 29));
    LenAt(At(0x157ec1ca0820183d5e0bfff6eadd8618018000, 29), [3, 0, 0, 0, 0, 0, 0, 0, 0, 0, 0, 0, 0, 0, 0, 0, 3, 3, 3], 4, 0, [3, 0, 0, 0, 0, 0, 0, 0, 0, 0, 0, 0, 0, 0, 0, 0, 3, 3, 3], At(0x2afd83941040307abc17ffedd5bb0c3003000, 32));
    LenAt(At(0x2afd83941040307abc17ffedd5bb0c3003000, 32), [3, 0, 0, 0, 0, 0, 0, 0, 0, 0, 0, 0, 0, 0, 0, 0, 3, 3, 3], 5, 0, [3, 0, 0, 0, 0, 0, 0, 0, 0, 0, 0, 0, 0, 0, 0, 0, 3, 3, 3], At(0x55fb0728208060f5782fffdbab7618600600, 35));
  }

  lemma {:induction false} ExampleLensC()
    ensures TakeLens(At(0x55fb0728208060f5782fffdbab7618600600, 35), [3, 0, 0, 0, 0, 0, 0, 0, 0, 0, 0, 0, 0, 0, 0, 0, 3, 3, 3], 6, 18)
         == TakeLens(At(0x2afd83941040307abc17ffedd5bb0c3003, 44), [3, 0, 0, 0, 0, 0, 0, 0, 0, 0, 0, 0, 0, 0, 0, 0, 3, 3, 3], 9, 18)
  {
    hide TakeLens;
    LenAt(At(0x55fb0728208060f5782fffdbab7618600600, 35), [3, 0, 0, 0, 0, 0, 0, 0, 0, 0, 0, 0, 0, 0, 0, 0, 3, 3, 3], 6, 0, [3, 0, 0, 0, 0, 0, 0, 0, 0, 0, 0, 0, 0, 0, 0, 0, 3, 3, 3], At(0xabf60e504100c1eaf05fffb756ec30c00c0, 38));
    LenAt(At(0xabf60e504100c1eaf05fffb756ec30c00c0, 38), [3, 0, 0, 0, 0, 0, 0, 0, 0, 0, 0, 0, 0, 0, 0, 0, 3, 3, 3], 7, 0, [3, 0, 0, 0, 0, 0, 0, 0, 0, 0, 0, 0, 0, 0, 0, 0, 3, 3, 3], At(0x157ec1ca0820183d5e0bfff6eadd8618018, 41));
    LenAt(At(0x157ec1ca0820183d5e0bfff6eadd8618018, 41), [3, 0, 0, 0, 0, 0, 0, 0, 0, 0, 0, 0, 0, 0, 0, 0, 3, 3, 3], 8, 0, [3, 0, 0, 0, 0, 0, 0, 0, 0, 0, 0, 0, 0, 0, 0, 0, 3, 3, 3], At(0x2afd83941040307abc17ffedd5bb0c3003, 44));
  }

  lemma {:induction false} ExampleLensD()
    ensures TakeLens(At(0x2afd83941040307abc17ffedd5bb0c3003, 44), [3, 0, 0, 0, 0, 0, 0, 0, 0, 0, 0, 0, 0, 0, 0, 0, 3, 3, 3], 9, 18)
         == TakeLens(At(0x157ec1ca0820183d5e0bfff6eadd8618, 53), [3, 0, 0, 0, 0, 3, 0, 0, 0, 0, 0, 0, 0, 0, 0, 0, 3, 3, 3], 12, 18)
  {
    hide TakeLens;
    LenAt(At(0x2afd83941040307abc17ffedd5bb0c3003, 44), [3, 0, 0, 0, 0, 0, 0, 0, 0, 0, 0, 0, 0, 0, 0, 0, 3, 3, 3], 9, 3, [3, 0, 0, 0, 0, 3, 0, 0, 0, 0, 0, 0, 0, 0, 0, 0, 3, 3, 3], At(0x55fb0728208060f5782fffdbab7618600, 47));
    LenAt(At(0x55fb0728208060f5782fffdbab7618600, 47), [3, 0, 0, 0, 0, 3, 0, 0, 0, 0, 0, 0, 0, 0, 0, 0, 3, 3, 3], 10, 0, [3, 0, 0, 0, 0, 3, 0, 0, 0, 0, 0, 0, 0, 0, 0, 0, 3, 3, 3], At(0xabf60e504100c1eaf05fffb756ec30c0, 50));
    LenAt(At(0xabf60e504100c1eaf05fffb756ec30c0, 50), [3, 0, 0, 0, 0, 3, 0, 0, 0, 0, 0, 0, 0, 0, 0, 0, 3, 3, 3], 11, 0, [3, 0, 0, 0, 0, 3, 0, 0, 0, 0, 0, 0, 0, 0, 0, 0, 3, 3, 3], At(0x157ec1ca0820183d5e0bfff6eadd8618, 53));
  }

  lemma {:induction false} ExampleLensE()
    ensures TakeLens(At(0x157ec1ca0820183d5e0bfff6eadd8618, 53), [3, 0, 0, 0, 0, 3, 0, 0, 0, 0, 0, 0, 0, 0, 0, 0, 3, 3, 3], 12, 18)
         == TakeLens(At(0xabf60e504100c1eaf05fffb756ec3, 62), [3, 0, 0, 3, 0, 3, 0, 0, 0, 0, 0, 0, 0, 0, 0, 0, 3, 3, 3], 15, 18)
  {
    hide TakeLens;
    LenAt(At(0x157ec1ca0820183d5e0bfff6eadd8618, 53), [3, 0, 0, 0, 0, 3, 0, 0, 0, 0, 0, 0, 0, 0, 0, 0, 3, 3, 3], 12, 0, [3, 0, 0, 0, 0, 3, 0, 0, 0, 0, 0, 0, 0, 0, 0, 0, 3, 3, 3], At(0x2afd83941040307abc17ffedd5bb0c3, 56));
    LenAt(At(0x2afd83941040307abc17ffedd5bb0c3, 56), [3, 0, 0, 0, 0, 3, 0, 0, 0, 0, 0, 0, 0, 0, 0, 0, 3, 3, 3], 13, 3, [3, 0, 0, 3, 0, 3, 0, 0, 0, 0, 0, 0, 0, 0, 0, 0, 3, 3, 3], At(0x55fb0728208060f5782fffdbab7618, 59));
    LenAt(At(0x55fb0728208060f5782fffdbab7618, 59), [3, 0, 0, 3, 0, 3, 0, 0, 0, 0, 0, 0, 0, 0, 0, 0, 3, 3, 3], 14, 0, [3, 0, 0, 3, 0, 3, 0, 0, 0, 0, 0, 0, 0, 0, 0, 0, 3, 3, 3], At(0xabf60e504100c1eaf05fffb756ec3, 62));
  }

  lemma {:induction false} ExampleLensF()
    ensures TakeLens(At(0xabf60e504100c1eaf05fffb756ec3, 62), [3, 0, 0, 3, 0, 3, 0, 0, 0, 0, 0, 0, 0, 0, 0, 0, 3, 3, 3], 15, 18)
         == TakeLens(At(0x55fb0728208060f5782fffdbab7, 71), [3, 3, 3, 3, 0, 3, 0, 0, 0, 0, 0, 0, 0, 0, 0, 0, 3, 3, 3], 18, 18)
  {
    hide TakeLens;
    LenAt(At(0xabf60e504100c1eaf05fffb756ec3, 62), [3, 0, 0, 3, 0, 3, 0, 0, 0, 0, 0, 0, 0, 0, 0, 0, 3, 3, 3], 15, 3, [3, 0, 3, 3, 0, 3, 0, 0, 0, 0, 0, 0, 0, 0, 0, 0, 3, 3, 3], At(0x157ec1ca0820183d5e0bfff6eadd8, 65));
    LenAt(At(0x157ec1ca0820183d5e0bfff6eadd8, 65), [3, 0, 3, 3, 0, 3, 0, 0, 0, 0, 0, 0, 0, 0, 0, 0, 3, 3, 3], 16, 0, [3, 0, 3, 3, 0, 3, 0, 0, 0, 0, 0, 0, 0, 0, 0, 0, 3, 3, 3], At(0x2afd83941040307abc17ffedd5bb, 68));
    LenAt(At(0x2afd83941040307abc17ffedd5bb, 68), [3, 0, 3, 3, 0, 3, 0, 0, 0, 0, 0, 0, 0, 0, 0, 0, 3, 3, 3], 17, 3, [3, 3, 3, 3, 0, 3, 0, 0, 0, 0, 0, 0, 0, 0, 0, 0, 3, 3, 3], At(0x55fb0728208060f5782fffdbab7, 71));
  }

  /** The lengths of both codes in a row. */
  function AllSizes(): (all: seq<nat>)
    ensures |all| == 275
    ensures forall i | 0 <= i < 275 ::
              all[i] == if 97 <= i <= 101 || i == 256 || i == 265 || i == 269 then 3 else if i == 272 || i == 274 then 1 else 0
  {
    LitSizes() + DistSizes()
  }

  /** A length by itself. */
  lemma {:induction false} SizeAt(m: nat, k: nat, src: Source, next: Source)
    requires m < 275 && k < 5 && AllSizes()[m] == LENS_USED[k]
    requires src.bits == Rev(k, 3) + 8 * next.bits && next.used == src.used + 3 <= next.end == src.end
    ensures TakeSizes(LenSizes(), src, 275, AllSizes()[..m]) == TakeSizes(LenSizes(), next, 275, AllSizes()[..m + 1])
  {
    SmallPowers();
    ExampleCodes();
    hide Pow2, Rev, TakeSymbol, LitSizes, DistSizes, Uniform;
    SymbolAt(LenSizes(), 3, LENS_USED, k, src, next);
    hide AllSizes;
    assert AllSizes()[..m] + [AllSizes()[m]] == AllSizes()[..m + 1];
  }

  /** A run. */
  lemma {:induction false} RunAt(m: nat, k: nat, x: nat, count: nat, src: Source, next: Source)
    requires 5 <= k < 8 && count == x + RunBase(LENS_USED[k]) && m + count <= 275 && 0 < m + 1 < 275
    requires k == 5 ==> m > 0
    requires forall i | m <= i < m + count :: AllSizes()[i] == if k == 5 then AllSizes()[m - 1] else 0
    requires var n := ExtraBits(LENS_USED[k]);
             && x < Pow2(n) && src.bits == Rev(k, 3) + 8 * (x + Pow2(n) * next.bits)
             && next.used == src.used + 3 + n <= next.end == src.end
    ensures TakeSizes(LenSizes(), src, 275, AllSizes()[..m]) == TakeSizes(LenSizes(), next, 275, AllSizes()[..m + count])
  {
    SmallPowers();
    ExampleCodes();
    hide Pow2, Rev, TakeSymbol, TakeBits, LitSizes, DistSizes, Uniform;
    var n := ExtraBits(LENS_USED[k]);
    var mid := Source(x + Pow2(n) * next.bits, src.used + 3, src.end);
    SymbolAt(LenSizes(), 3, LENS_USED, k, src, mid);
    BitsAt(mid, n, x, next);
    hide AllSizes;
    assert AllSizes()[..m] + Copies(if k == 5 then AllSizes()[m - 1] else 0, count) == AllSizes()[..m + count];
  }

  lemma {:induction false} ExampleSizesA()
    ensures TakeSizes(LenSizes(), At(0x55fb0728208060f5782fffdbab7, 71), 275, AllSizes()[..0])
         == TakeSizes(LenSizes(), At(0x157ec1ca0820183d5e, 109), 275, AllSizes()[..256])
  {
    SmallPowers();
    ThreeBits();
    hide TakeSizes, Pow2, Rev, LenSizes, AllSizes;
    RunAt(0, 7, 86, 97, At(0x55fb0728208060f5782fffdbab7, 71), At(0x157ec1ca0820183d5e0bfff6e, 81));
    SizeAt(97, 3, At(0x157ec1ca0820183d5e0bfff6e, 81), At(0x2afd83941040307abc17ffed, 84));
    RunAt(98, 5, 1, 4, At(0x2afd83941040307abc17ffed, 84), At(0x157ec1ca0820183d5e0bfff, 89));
    RunAt(102, 7, 127, 138, At(0x157ec1ca0820183d5e0bfff, 89), At(0x55fb0728208060f5782f, 99));
    RunAt(240, 7, 5, 16, At(0x55fb0728208060f5782f, 99), At(0x157ec1ca0820183d5e, 109));
  }

  lemma {:induction false} ExampleSizesB()
    ensures TakeSizes(LenSizes(), At(0x157ec1ca0820183d5e, 109), 275, AllSizes()[..256])
         == TakeSizes(LenSizes(), At(0xabf60e504100, 130), 275, AllSizes()[..270])
  {
    SmallPowers();
    ThreeBits();
    hide TakeSizes, Pow2, Rev, LenSizes, AllSizes;
    SizeAt(256, 3, At(0x157ec1ca0820183d5e, 109), At(0x2afd83941040307ab, 112));
    RunAt(257, 6, 5, 8, At(0x2afd83941040307ab, 112), At(0xabf60e504100c1e, 118));
    SizeAt(265, 3, At(0xabf60e504100c1e, 118), At(0x157ec1ca0820183, 121));
    RunAt(266, 6, 0, 3, At(0x157ec1ca0820183, 121), At(0x55fb072820806, 127));
    SizeAt(269, 3, At(0x55fb072820806, 127), At(0xabf60e504100, 130));
  }

  lemma {:induction false} ExampleSizesC()
    ensures TakeSizes(LenSizes(), At(0xabf60e504100, 130), 275, AllSizes()[..270])
         == TakeSizes(LenSizes(), At(0x157ec1ca0, 145), 275, AllSizes()[..275])
  {
    SmallPowers();
    ThreeBits();
    hide TakeSizes, Pow2, Rev, LenSizes, AllSizes;
    SizeAt(270, 0, At(0xabf60e504100, 130), At(0x157ec1ca0820, 133));
    SizeAt(271, 0, At(0x157ec1ca0820, 133), At(0x2afd8394104, 136));
    SizeAt(272, 1, At(0x2afd8394104, 136), At(0x55fb072820, 139));
    SizeAt(273, 0, At(0x55fb072820, 139), At(0xabf60e504, 142));
    SizeAt(274, 1, At(0xabf60e504, 142), At(0x157ec1ca0, 145));
  }

  // ---------------------------------------------------------------- the codes of the block

  /** What the stream stands for. */
  function Text(): (text: seq<Byte>)
    ensures |text| == 39
  {
    [97, 98, 99, 100, 101, 97, 97, 98, 99, 100, 101, 97, 97, 98, 99, 100, 101, 97, 100, 101, 97, 100, 101, 97, 100, 101, 97, 100, 101, 97, 100, 101, 97, 100, 101, 97, 100, 101, 97]
  }

  lemma {:induction false} LiteralAt(m: nat, k: nat, src: Source, next: Source)
    requires m < 39 && k < 5 && Text()[m] == LIT_USED[k]
    requires src.bits == Rev(k, 3) + 8 * next.bits && next.used == src.used + 3 <= next.end == src.end
    ensures TakeCodes(LitSizes(), DistSizes(), src, Text()[..m]) == TakeCodes(LitSizes(), DistSizes(), next, Text()[..m + 1])
  {
    SmallPowers();
    ExampleCodes();
    hide Pow2, Rev, TakeSymbol, TakeMatch, LitSizes, DistSizes, Uniform, Text;
    SymbolAt(LitSizes(), 3, LIT_USED, k, src, next);
    assert Text()[..m] + [Text()[m]] == Text()[..m + 1];
  }

  /** A match: length symbol and extra bits, distance symbol and extra bits. */
  lemma {:induction false} MatchAt(m: nat, k: nat, x: nat, len: nat, d: nat, y: nat, distance: nat, src: Source, next: Source)
    requires 6 <= k < 8 && d < 2 && len == LengthBase(LIT_USED[k]) + x && distance == DistBase(DIST_USED[d]) + y
    requires x < Pow2(LengthExtraBits(LIT_USED[k])) && y < Pow2(DistExtraBits(DIST_USED[d]))
    requires Repeats(Text(), m, len, distance)
    requires var n, l := LengthExtraBits(LIT_USED[k]), DistExtraBits(DIST_USED[d]);
             && src.bits == Rev(k, 3) + 8 * (x + Pow2(n) * (Rev(d, 1) + 2 * (y + Pow2(l) * next.bits)))
             && next.used == src.used + 4 + n + l <= next.end == src.end
    ensures TakeCodes(LitSizes(), DistSizes(), src, Text()[..m]) == TakeCodes(LitSizes(), DistSizes(), next, Text()[..m + len])
  {
    SmallPowers();
    ExampleCodes();
    hide Pow2, Rev, TakeSymbol, TakeBits, TakeCodes, LitSizes, DistSizes, Uniform, Text, CopyBack;
    var n, l := LengthExtraBits(LIT_USED[k]), DistExtraBits(DIST_USED[d]);
    var third := Source(y + Pow2(l) * next.bits, src.used + 4 + n, src.end);
    var second := Source(Rev(d, 1) + 2 * third.bits, src.used + 3 + n, src.end);
    var first := Source(x + Pow2(n) * second.bits, src.used + 3, src.end);
    SymbolAt(LitSizes(), 3, LIT_USED, k, src, first);
    BitsAt(first, n, x, second);
    SymbolAt(DistSizes(), 1, DIST_USED, d, second, third);
    BitsAt(third, l, y, next);
    MatchStep(LitSizes(), DistSizes(), src, first, LIT_USED[k], Match(len, distance), next, Text()[..m]);
    CopyRepeat(Text(), m, len, distance);
  }

  lemma {:induction false} ExampleBody()
    ensures TakeCodes(LitSizes(), DistSizes(), At(0x157ec1ca0, 145), [])
         == Read(Text(), At(0x0, 178))
  {
    SmallPowers();
    ThreeBits();
    ExampleRepeats();
    hide TakeCodes, Pow2, Rev, LitSizes, DistSizes, Text, Repeats;
    ExampleLetters();
    MatchAt(6, 6, 1, 12, 1, 1, 6, At(0x55fb, 163), At(0x157, 169));
    MatchAt(18, 7, 2, 21, 0, 0, 3, At(0x157, 169), At(0x5, 175));
    BlockEnds(At(0x5, 175), At(0x0, 178));
    assert Text()[..0] == [] && Text()[..39] == Text();
  }

  lemma {:induction false} ExampleLetters()
    ensures TakeCodes(LitSizes(), DistSizes(), At(0x157ec1ca0, 145), Text()[..0])
         == TakeCodes(LitSizes(), DistSizes(), At(0x55fb, 163), Text()[..6])
  {
    ThreeBits();
    hide TakeCodes, Rev, LitSizes, DistSizes;
    LiteralAt(0, 0, At(0x157ec1ca0, 145), At(0x2afd8394, 148));
    LiteralAt(1, 1, At(0x2afd8394, 148), At(0x55fb072, 151));
    LiteralAt(2, 2, At(0x55fb072, 151), At(0xabf60e, 154));
    LiteralAt(3, 3, At(0xabf60e, 154), At(0x157ec1, 157));
    LiteralAt(4, 4, At(0x157ec1, 157), At(0x2afd8, 160));
    LiteralAt(5, 0, At(0x2afd8, 160), At(0x55fb, 163));
  }

  lemma {:induction false} ExampleRepeats()
    ensures Repeats(Text(), 6, 12, 6) && Repeats(Text(), 18, 21, 3)
  {
  }

  lemma {:induction false} BlockEnds(src: Source, next: Source)
    requires src.bits == Rev(5, 3) + 8 * next.bits && next.used == src.used + 3 <= next.end == src.end
    ensures TakeCodes(LitSizes(), DistSizes(), src, Text()) == Read(Text(), next)
  {
    SmallPowers();
    ExampleCodes();
    hide Pow2, Rev, TakeSymbol, LitSizes, DistSizes, Uniform, Text;
    SymbolAt(LitSizes(), 3, LIT_USED, 5, src, next);
  }

  // ---------------------------------------------------------------- the whole stream

  lemma {:induction false} ExampleHeader()
    ensures TakeHeader(At(0x55fb0728208060f5782fffdbab761860060001b6f88d, 3)) == Read(Codes(LitSizes(), DistSizes()), At(0x157ec1ca0, 145))
  {
    SmallPowers();
    hide Pow2, TakeBits, TakeLengths;
    BitsAt(At(0x55fb0728208060f5782fffdbab761860060001b6f88d, 3), 5, 13, At(0x2afd83941040307abc17ffedd5bb0c30030000db7c4, 8));
    BitsAt(At(0x2afd83941040307abc17ffedd5bb0c30030000db7c4, 8), 5, 4, At(0x157ec1ca0820183d5e0bfff6eadd86180180006dbe, 13));
    BitsAt(At(0x157ec1ca0820183d5e0bfff6eadd86180180006dbe, 13), 4, 14, At(0x157ec1ca0820183d5e0bfff6eadd86180180006db, 17));
    ExampleLengths();
  }

  lemma {:induction false} ExampleLengths()
    ensures TakeLengths(At(0x157ec1ca0820183d5e0bfff6eadd86180180006db, 17), 270, 5, 18) == Read(Codes(LitSizes(), DistSizes()), At(0x157ec1ca0, 145))
  {
    ExampleCodes();
    hide TakeLens, TakeSizes, Accepted, Uniform, LitSizes, DistSizes, AllSizes, LenSizes, NotOversubscribed, Transmitted;
    UniformCodes(LenSizes(), 3, LENS_USED);
    UniformCodes(LitSizes(), 3, LIT_USED);
    UniformCodes(DistSizes(), 1, DIST_USED);
    LensRead();
    SizesRead();
    AllIsBoth();
  }

  lemma {:induction false} AllIsBoth()
    ensures AllSizes()[..270] == LitSizes() && AllSizes()[270..] == DistSizes()
  {
  }

  lemma {:induction false} LensRead()
    ensures TakeLens(At(0x157ec1ca0820183d5e0bfff6eadd86180180006db, 17), Copies(0, 19), 0, 18) == Read(LenSizes(), At(0x55fb0728208060f5782fffdbab7, 71))
  {
    assert Copies(0, 19) == [0, 0, 0, 0, 0, 0, 0, 0, 0, 0, 0, 0, 0, 0, 0, 0, 0, 0, 0];
    ExampleLensA();
    ExampleLensB();
    ExampleLensC();
    ExampleLensD();
    ExampleLensE();
    ExampleLensF();
  }

  lemma {:induction false} SizesRead()
    ensures TakeSizes(LenSizes(), At(0x55fb0728208060f5782fffdbab7, 71), 275, []) == Read(AllSizes(), At(0x157ec1ca0, 145))
  {
    hide LenSizes, AllSizes;
    assert AllSizes()[..0] == [] && AllSizes()[..275] == AllSizes();
    ExampleSizesA();
    ExampleSizesB();
    ExampleSizesC();
  }

  lemma {:induction false} ExampleBlocks()
    ensures TakeBlocks(At(0x2afd83941040307abc17ffedd5bb0c30030000db7c46d, 0), []) == Read(Text(), At(0x0, 178))
  {
    SmallPowers();
    hide Pow2, TakeBits, TakeHeader, TakeCodes;
    BitsAt(At(0x2afd83941040307abc17ffedd5bb0c30030000db7c46d, 0), 3, 5, At(0x55fb0728208060f5782fffdbab761860060001b6f88d, 3));
    ExampleHeader();
    ExampleBody();
  }

  /** The bytes of the stream. */
  const BYTES: seq<Byte> := [
    0x6d, 0xc4, 0xb7, 0x0d, 0x00, 0x30, 0x00, 0xc3, 0xb0, 0x5b, 0xdd, 0xfe,
    0x7f, 0xc1, 0xab, 0x07, 0x03, 0x04, 0x41, 0x39, 0xd8, 0xaf, 0x02]

  lemma {:induction false} NumberFront(bytes: seq<Byte>, i: nat, value: nat, rest: nat)
    requires i < |bytes| && Number(bytes[i + 1..]) == rest && value == bytes[i] + 256 * rest
    ensures Number(bytes[i..]) == value
  {
    FirstByte(bytes[i], bytes[i + 1..]);
    assert [bytes[i]] + bytes[i + 1..] == bytes[i..];
  }

  lemma {:induction false} FirstByte(b: Byte, rest: seq<Byte>)
    ensures Number([b] + rest) == b + 256 * Number(rest)
    decreases |rest|
  {
    SmallPowers();
    if rest == [] {
      assert Pow2(0) == 1 && [b] + rest == [b] && [b][..0] == [];
      assert Number([b]) == Number([b][..0]) + b * 1;
    } else {
      var front, last := rest[..|rest| - 1], rest[|rest| - 1];
      FirstByte(b, front);
      assert ([b] + rest)[..|rest|] == [b] + front;
      Pow2Add(8, 8 * |front|);
      assert last * (256 * Pow2(8 * |front|)) == 256 * (last * Pow2(8 * |front|));
    }
  }

  lemma {:induction false} ExampleNumber()
    ensures Number(BYTES) == 0x2afd83941040307abc17ffedd5bb0c30030000db7c46d
  {
    hide Number;
    var bytes := BYTES;
    assert bytes[23..] == [] && bytes[0..] == bytes;
    NumberOfNothing();
    NumberFrom20(bytes);
    NumberFrom16(bytes);
    NumberFrom12(bytes);
    NumberFrom8(bytes);
    NumberFrom4(bytes);
    NumberFrom0(bytes);
  }

  lemma {:induction false} NumberFrom0(bytes: seq<Byte>)
    requires bytes == BYTES && Number(bytes[4..]) == 0x2afd83941040307abc17ffedd5bb0c3003000
    ensures Number(bytes[0..]) == 0x2afd83941040307abc17ffedd5bb0c30030000db7c46d
  {
    hide Number;
    NumberFront(bytes, 3, 0x2afd83941040307abc17ffedd5bb0c30030000d, 0x2afd83941040307abc17ffedd5bb0c3003000);
    NumberFront(bytes, 2, 0x2afd83941040307abc17ffedd5bb0c30030000db7, 0x2afd83941040307abc17ffedd5bb0c30030000d);
    NumberFront(bytes, 1, 0x2afd83941040307abc17ffedd5bb0c30030000db7c4, 0x2afd83941040307abc17ffedd5bb0c30030000db7);
    NumberFront(bytes, 0, 0x2afd83941040307abc17ffedd5bb0c30030000db7c46d, 0x2afd83941040307abc17ffedd5bb0c30030000db7c4);
  }

  lemma {:induction false} NumberFrom4(bytes: seq<Byte>)
    requires bytes == BYTES && Number(bytes[8..]) == 0x2afd83941040307abc17ffedd5bb0
    ensures Number(bytes[4..]) == 0x2afd83941040307abc17ffedd5bb0c3003000
  {
    hide Number;
    NumberFront(bytes, 7, 0x2afd83941040307abc17ffedd5bb0c3, 0x2afd83941040307abc17ffedd5bb0);
    NumberFront(bytes, 6, 0x2afd83941040307abc17ffedd5bb0c300, 0x2afd83941040307abc17ffedd5bb0c3);
    NumberFront(bytes, 5, 0x2afd83941040307abc17ffedd5bb0c30030, 0x2afd83941040307abc17ffedd5bb0c300);
    NumberFront(bytes, 4, 0x2afd83941040307abc17ffedd5bb0c3003000, 0x2afd83941040307abc17ffedd5bb0c30030);
  }

  lemma {:induction false} NumberFrom8(bytes: seq<Byte>)
    requires bytes == BYTES && Number(bytes[12..]) == 0x2afd83941040307abc17f
    ensures Number(bytes[8..]) == 0x2afd83941040307abc17ffedd5bb0
  {
    hide Number;
    NumberFront(bytes, 11, 0x2afd83941040307abc17ffe, 0x2afd83941040307abc17f);
    NumberFront(bytes, 10, 0x2afd83941040307abc17ffedd, 0x2afd83941040307abc17ffe);
    NumberFront(bytes, 9, 0x2afd83941040307abc17ffedd5b, 0x2afd83941040307abc17ffedd);
    NumberFront(bytes, 8, 0x2afd83941040307abc17ffedd5bb0, 0x2afd83941040307abc17ffedd5b);
  }

  lemma {:induction false} NumberFrom12(bytes: seq<Byte>)
    requires bytes == BYTES && Number(bytes[16..]) == 0x2afd839410403
    ensures Number(bytes[12..]) == 0x2afd83941040307abc17f
  {
    hide Number;
    NumberFront(bytes, 15, 0x2afd83941040307, 0x2afd839410403);
    NumberFront(bytes, 14, 0x2afd83941040307ab, 0x2afd83941040307);
    NumberFront(bytes, 13, 0x2afd83941040307abc1, 0x2afd83941040307ab);
    NumberFront(bytes, 12, 0x2afd83941040307abc17f, 0x2afd83941040307abc1);
  }

  lemma {:induction false} NumberFrom16(bytes: seq<Byte>)
    requires bytes == BYTES && Number(bytes[20..]) == 0x2afd8
    ensures Number(bytes[16..]) == 0x2afd839410403
  {
    hide Number;
    NumberFront(bytes, 19, 0x2afd839, 0x2afd8);
    NumberFront(bytes, 18, 0x2afd83941, 0x2afd839);
    NumberFront(bytes, 17, 0x2afd8394104, 0x2afd83941);
    NumberFront(bytes, 16, 0x2afd839410403, 0x2afd8394104);
  }

  lemma {:induction false} NumberFrom20(bytes: seq<Byte>)
    requires bytes == BYTES && Number(bytes[23..]) == 0x0
    ensures Number(bytes[20..]) == 0x2afd8
  {
    hide Number;
    NumberFront(bytes, 22, 0x2, 0x0);
    NumberFront(bytes, 21, 0x2af, 0x2);
    NumberFront(bytes, 20, 0x2afd8, 0x2af);
  }

  lemma NumberOfNothing()
    ensures Number([]) == 0
  {
  }

  /** The stream decompresses to the text. */
  method Example() returns (text: seq<Byte>)
    ensures text == [97, 98, 99, 100, 101, 97, 97, 98, 99, 100, 101, 97, 97, 98, 99, 100, 101, 97, 100, 101, 97, 100, 101, 97, 100, 101, 97, 100, 101, 97, 100, 101, 97, 100, 101, 97, 100, 101, 97]
  {
    hide TakeBlocks, Number;
    ExampleNumber();
    ExampleBlocks();
    var r := DecompressMemory([
      0x6d, 0xc4, 0xb7, 0x0d, 0x00, 0x30, 0x00, 0xc3, 0xb0, 0x5b, 0xdd, 0xfe,
      0x7f, 0xc1, 0xab, 0x07, 0x03, 0x04, 0x41, 0x39, 0xd8, 0xaf, 0x02]);
    text := r.value;
  }

  // ---------------------------------------------------------------- stored bytes and fixed codes

  lemma RevStep(x: nat, n: nat, half: nat, bit: nat, rest: nat, p: nat)
    requires n > 0 && x == 2 * half + bit && bit < 2 && Rev(half, n - 1) == rest && p == Pow2(n - 1)
    ensures Rev(x, n) == bit * p + rest
  {
  }

  lemma {:induction false} FixedBits()
    ensures Rev(0x91, 8) == 137 && Rev(0x1C8, 9) == 39 && Rev(2, 7) == 32 && Rev(0, 7) == 0 && Rev(3, 5) == 24
  {
    SmallPowers();
    NoRev();
    hide Rev, Pow2;
    RevStep(1, 1, 0, 1, 0, 1);
    RevStep(2, 2, 1, 0, 1, 2);
    RevStep(4, 3, 2, 0, 1, 4);
    RevStep(9, 4, 4, 1, 1, 8);
    RevStep(18, 5, 9, 0, 9, 16);
    RevStep(36, 6, 18, 0, 9, 32);
    RevStep(72, 7, 36, 0, 9, 64);
    RevStep(145, 8, 72, 1, 9, 128);
    RevStep(3, 2, 1, 1, 1, 2);
    RevStep(7, 3, 3, 1, 3, 4);
    RevStep(14, 4, 7, 0, 7, 8);
    RevStep(28, 5, 14, 0, 7, 16);
    RevStep(57, 6, 28, 1, 7, 32);
    RevStep(114, 7, 57, 0, 39, 64);
    RevStep(228, 8, 114, 0, 39, 128);
    RevStep(456, 9, 228, 0, 39, 256);
    RevStep(0, 1, 0, 0, 0, 1);
    RevStep(0, 2, 0, 0, 0, 2);
    RevStep(0, 3, 0, 0, 0, 4);
    RevStep(0, 4, 0, 0, 0, 8);
    RevStep(0, 5, 0, 0, 0, 16);
    RevStep(1, 6, 0, 1, 0, 32);
    RevStep(2, 7, 1, 0, 32, 64);
    RevStep(0, 6, 0, 0, 0, 32);
    RevStep(0, 7, 0, 0, 0, 64);
    RevStep(1, 4, 0, 1, 0, 8);
    RevStep(3, 5, 1, 1, 8, 16);
  }

  lemma NoRev()
    ensures Rev(0, 0) == 0
  {
  }

  lemma {:induction false} FixedAt(s: nat, n: nat, code: nat, src: Source, next: Source)
    requires s < 288 && StaticLit()[s] == n > 0 && CodeOf(StaticLit(), s) == code
    requires src.bits == Rev(code, n) + Pow2(n) * next.bits && next.used == src.used + n <= next.end == src.end
    ensures TakeSymbol(StaticLit(), src) == Read(s, next)
  {
    hide Rev, NotOversubscribed, TakeSymbol, Starts, Pow2, CodeOf, StaticLit, StaticDist, Lengths;
    StaticAccepted();
    DivModUnique(src.bits, Pow2(n), next.bits, Rev(code, n));
    CodeStarts(StaticLit(), s, src.bits);
    OneStarts(StaticLit(), src, s);
  }

  lemma {:induction false} FixedDistanceAt(d: nat, src: Source, next: Source)
    requires d < 30 && src.bits == Rev(d, 5) + 32 * next.bits && next.used == src.used + 5 <= next.end == src.end
    ensures TakeSymbol(StaticDist(), src) == Read(d, next)
  {
    SmallPowers();
    FixedCodes(d);
    hide Rev, NotOversubscribed, TakeSymbol, Starts, Pow2, CodeOf, StaticLit, StaticDist, Lengths;
    StaticAccepted();
    DivModUnique(src.bits, 32, next.bits, Rev(d, 5));
    CodeStarts(StaticDist(), d, src.bits);
    OneStarts(StaticDist(), src, d);
  }

  lemma {:induction false} FixedBody()
    ensures TakeCodes(StaticLit(), StaticDist(), Source(0x18402789, 59, 96), [0x78, 0x79]) == Read([120, 121, 97, 200, 120, 121, 97, 200], Source(0x0, 95, 96))
  {
    FixedLiterals();
    FixedMatch();
    hide TakeCodes, StaticLit, StaticDist;
    assert [0x78, 0x79] + [97] == [0x78, 0x79, 97] && [0x78, 0x79, 97] + [200] == [0x78, 0x79, 97, 200];
  }

  lemma {:induction false} FixedLiterals()
    ensures TakeCodes(StaticLit(), StaticDist(), Source(0x18402789, 59, 96), [0x78, 0x79])
         == TakeCodes(StaticLit(), StaticDist(), Source(0xc20, 76, 96), [0x78, 0x79] + [97] + [200])
  {
    SmallPowers();
    FixedBits();
    FixedCodes(97);
    FixedCodes(200);
    hide Pow2, Rev, TakeSymbol, TakeMatch, StaticLit, StaticDist, CodeOf;
    FixedAt(97, 8, 0x91, Source(0x18402789, 59, 96), Source(0x184027, 67, 96));
    FixedAt(200, 9, 0x1C8, Source(0x184027, 67, 96), Source(0xc20, 76, 96));
  }

  lemma {:induction false} FixedMatch()
    ensures TakeCodes(StaticLit(), StaticDist(), Source(0xc20, 76, 96), [0x78, 0x79, 97, 200]) == Read([120, 121, 97, 200, 120, 121, 97, 200], Source(0x0, 95, 96))
  {
    hide TakeCodes, TakeSymbol, TakeMatch, Rev, StaticLit, StaticDist, CodeOf, CopyBack, Pow2;
    SmallPowers();
    FixedBits();
    FixedLength();
    FixedMatchRead();
    FixedEnd();
    FixedAt(258, 7, 2, Source(0xc20, 76, 96), Source(0x18, 83, 96));
    MatchStep(StaticLit(), StaticDist(), Source(0xc20, 76, 96), Source(0x18, 83, 96), 258, Match(4, 4), Source(0x0, 88, 96), [0x78, 0x79, 97, 200]);
    var all: seq<Byte> := [120, 121, 97, 200, 120, 121, 97, 200];
    assert all[..4] == [0x78, 0x79, 97, 200] && all[..8] == all;
    CopyRepeat(all, 4, 4, 4);
  }

  lemma {:induction false} FixedLength()
    ensures StaticLit()[258] == 7 && CodeOf(StaticLit(), 258) == 2
  {
    FixedCodes(258);
  }

  lemma {:induction false} MatchStep(lit: seq<nat>, dist: seq<nat>, src: Source, mid: Source, s: nat, c: Code, next: Source, out: seq<Byte>)
    requires TakeSymbol(lit, src) == Read(s, mid) && s > END_OF_BLOCK && TakeMatch(dist, mid, s) == Read(c, next)
    requires Applicable(out, c)
    ensures TakeCodes(lit, dist, src, out) == TakeCodes(lit, dist, next, Apply(out, c))
  {
    hide TakeSymbol, TakeMatch, Apply, Applicable;
  }

  lemma {:induction false} FixedMatchRead()
    ensures TakeMatch(StaticDist(), Source(0x18, 83, 96), 258) == Read(Match(4, 4), Source(0x0, 88, 96))
  {
    SmallPowers();
    FixedBits();
    hide Pow2, Rev, TakeSymbol, TakeBits, StaticDist;
    BitsAt(Source(0x18, 83, 96), 0, 0, Source(0x18, 83, 96));
    FixedDistanceAt(3, Source(0x18, 83, 96), Source(0x0, 88, 96));
    BitsAt(Source(0x0, 88, 96), 0, 0, Source(0x0, 88, 96));
  }

  lemma {:induction false} FixedEnd()
    ensures TakeCodes(StaticLit(), StaticDist(), Source(0x0, 88, 96), [120, 121, 97, 200, 120, 121, 97, 200]) == Read([120, 121, 97, 200, 120, 121, 97, 200], Source(0x0, 95, 96))
  {
    SmallPowers();
    FixedBits();
    FixedCodes(256);
    hide Pow2, Rev, TakeSymbol, StaticLit, StaticDist, CodeOf;
    FixedAt(256, 7, 0, Source(0x0, 88, 96), Source(0x0, 95, 96));
  }

  lemma {:induction false} StoredBytes()
    ensures TakeStored(Source(0x184027896f2f1fffa00040, 3, 96), []) == Read([0x78, 0x79], Source(0xc2013c4b, 56, 96))
  {
    SmallPowers();
    Sixteen();
    hide Pow2, TakeBits;
    BitsAt(Source(0x184027896f2f1fffa00040, 3, 96), 5, 0, Source(0xc2013c4b7978fffd0002, 8, 96));
    BitsAt(Source(0xc2013c4b7978fffd0002, 8, 96), 16, 2, Source(0xc2013c4b7978fffd, 24, 96));
    BitsAt(Source(0xc2013c4b7978fffd, 24, 96), 16, 0xFFFD, Source(0xc2013c4b7978, 40, 96));
    BitsAt(Source(0xc2013c4b7978, 40, 96), 8, 0x78, Source(0xc2013c4b79, 48, 96));
    BitsAt(Source(0xc2013c4b79, 48, 96), 8, 0x79, Source(0xc2013c4b, 56, 96));
    assert [] + [0x78] == [0x78] && [0x78] + [0x79] == [0x78, 0x79];
    assert TakeBytes(Source(0xc2013c4b79, 48, 96), 1, [0x78]) == TakeBytes(Source(0xc2013c4b, 56, 96), 0, [0x78] + [0x79]);
    assert TakeBytes(Source(0xc2013c4b7978, 40, 96), 2, []) == TakeBytes(Source(0xc2013c4b79, 48, 96), 1, [] + [0x78]);
  }

  lemma {:induction false} TwoBlocks()
    ensures TakeBlocks(Source(0xc2013c4b7978fffd000200, 0, 96), []) == Read([120, 121, 97, 200, 120, 121, 97, 200], Source(0x0, 95, 96))
  {
    SmallPowers();
    hide Pow2, TakeBits, TakeStored, TakeCodes, StaticLit, StaticDist;
    BitsAt(Source(0xc2013c4b7978fffd000200, 0, 96), 3, 0, Source(0x184027896f2f1fffa00040, 3, 96));
    StoredBytes();
    BitsAt(Source(0xc2013c4b, 56, 96), 3, 3, Source(0x18402789, 59, 96));
    FixedBody();
  }

  lemma {:induction false} TwoBlocksNumber(bytes: seq<Byte>)
    requires bytes == [0, 2, 0, 253, 255, 120, 121, 75, 60, 1, 194, 0]
    ensures Number(bytes) == 0xc2013c4b7978fffd000200
  {
    hide Number;
    assert bytes[12..] == [] && bytes[0..] == bytes;
    NumberOfNothing();
    NumberFront(bytes, 11, 0x0, 0x0);
    NumberFront(bytes, 10, 0xc2, 0x0);
    NumberFront(bytes, 9, 0xc201, 0xc2);
    NumberFront(bytes, 8, 0xc2013c, 0xc201);
    NumberFront(bytes, 7, 0xc2013c4b, 0xc2013c);
    NumberFront(bytes, 6, 0xc2013c4b79, 0xc2013c4b);
    NumberFront(bytes, 5, 0xc2013c4b7978, 0xc2013c4b79);
    NumberFront(bytes, 4, 0xc2013c4b7978ff, 0xc2013c4b7978);
    NumberFront(bytes, 3, 0xc2013c4b7978fffd, 0xc2013c4b7978ff);
    NumberFront(bytes, 2, 0xc2013c4b7978fffd00, 0xc2013c4b7978fffd);
    NumberFront(bytes, 1, 0xc2013c4b7978fffd0002, 0xc2013c4b7978fffd00);
    NumberFront(bytes, 0, 0xc2013c4b7978fffd000200, 0xc2013c4b7978fffd0002);
  }

  /** A stored block, and a block with fixed codes that repeats its bytes. */
  method SecondExample() returns (text: seq<Byte>)
    ensures text == [120, 121, 97, 200, 120, 121, 97, 200]
  {
    hide TakeBlocks, Number;
    var bytes: seq<Byte> := [0, 2, 0, 253, 255, 120, 121, 75, 60, 1, 194, 0];
    TwoBlocksNumber(bytes);
    TwoBlocks();
    var r := DecompressMemory(bytes);
    text := r.value;
  }
}
