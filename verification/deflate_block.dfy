/** A whole compressed block: header, codes and end, written from the recorded codes and read back to their expansion. */
module DeflateBlock {
  import opened Powers
  import opened LzCodes
  import opened LzCodeBuffer
  import opened LzBuffers
  import opened SymbolFrequency
  import opened BitStream
  import opened CanonicalCode
  import opened InflateBudget
  import opened InflateDecoder
  import opened UsedSymbols
  import opened LimitedCost
  import opened HuffmanTable
  import opened CodeLengthPacking
  import opened DeflateSymbols
  import opened DeflateCodes
  import opened DeflateHeader

  // ---------------------------------------------------------------- counts

  lemma {:induction false} TotalOneMore(a: seq<nat>, b: seq<nat>, s: nat)
    requires |a| == |b| && s < |a| && b[s] == a[s] + 1
    requires forall c: nat | c < |a| && c != s :: b[c] == a[c]
    ensures Total(b) == Total(a) + 1
    decreases |a|
  {
    var n := |a| - 1;
    if s < n {
      TotalOneMore(a[..n], b[..n], s);
    } else {
      assert a[..n] == b[..n];
    }
  }

  lemma {:induction false} TotalZero(a: seq<nat>)
    requires forall c | 0 <= c < |a| :: a[c] == 0
    ensures Total(a) == 0
  {
    if a != [] {
      TotalZero(a[..|a| - 1]);
    }
  }

  /** Every code counts once among the literal/length symbols, and at most once among the distance symbols. */
  lemma {:induction false} CodeTotals(cs: seq<Code>, lits: seq<nat>, dists: seq<nat>)
    requires AllExpressible(cs) && Counted(lits, dists, cs)
    ensures Total(lits) == |cs| && Total(dists) <= |cs|
    decreases |cs|
  {
    if cs == [] {
      TotalZero(lits);
      TotalZero(dists);
    } else {
      var front, c := cs[..|cs| - 1], cs[|cs| - 1];
      var lits', dists' := seq(288, s requires 0 <= s => LitOccurs(front, s)), seq(32, s requires 0 <= s => DistOccurs(front, s));
      CodeTotals(front, lits', dists');
      assert cs == front + [c];
      OccursOne(front, c);
      TotalOneMore(lits', lits, LitSymOf(c));
      if c.Match? {
        TotalOneMore(dists', dists, DistSym(c.dist - 1));
      } else {
        assert dists == dists';
      }
    }
  }

  lemma {:induction false} TokenTotals(ts: seq<Token>, counts: seq<nat>)
    requires TokensOk(ts) && |counts| == 19 && forall c: nat | c < 19 :: counts[c] == SymOccurs(ts, c)
    ensures Total(counts) == |ts|
    decreases |ts|
  {
    if ts == [] {
      TotalZero(counts);
    } else {
      var front, t := ts[..|ts| - 1], ts[|ts| - 1];
      var counts' := seq(19, c requires 0 <= c => SymOccurs(front, c));
      TokenTotals(front, counts');
      TotalOneMore(counts', counts, TokenSym(t));
    }
  }

  lemma {:induction false} Occurring(cs: seq<Code>, i: nat)
    requires AllExpressible(cs) && i < |cs|
    ensures LitOccurs(cs, LitSymOf(cs[i])) > 0
    ensures cs[i].Match? ==> DistOccurs(cs, DistSym(cs[i].dist - 1)) > 0
    decreases |cs|
  {
    if i < |cs| - 1 {
      Occurring(cs[..|cs| - 1], i);
    }
  }

  lemma {:induction false} TokenOccurring(ts: seq<Token>, i: nat)
    requires i < |ts|
    ensures SymOccurs(ts, TokenSym(ts[i])) > 0
    decreases |ts|
  {
    if i < |ts| - 1 {
      TokenOccurring(ts[..|ts| - 1], i);
    }
  }

  lemma {:induction false} NeverOccurring(cs: seq<Code>)
    requires AllExpressible(cs)
    ensures LitOccurs(cs, END_OF_BLOCK) == 0 && LitOccurs(cs, 286) == 0 && LitOccurs(cs, 287) == 0
    ensures DistOccurs(cs, 30) == 0 && DistOccurs(cs, 31) == 0
    decreases |cs|
  {
    if cs != [] {
      NeverOccurring(cs[..|cs| - 1]);
    }
  }

  // ---------------------------------------------------------------- lengths without the zeros at the end

  ghost predicate ZeroFrom(sizes: seq<nat>, n: nat) {
    n <= |sizes| && forall s | n <= s < |sizes| :: sizes[s] == 0
  }

  lemma {:induction false} CountTrim(sizes: seq<nat>, n: nat, l: nat)
    requires ZeroFrom(sizes, n) && l > 0
    ensures Count(sizes[..n], l) == Count(sizes, l)
    decreases |sizes|
  {
    if n < |sizes| {
      var front := sizes[..|sizes| - 1];
      CountTrim(front, n, l);
      assert front[..n] == sizes[..n] && sizes == front + [0];
      CountAppend(front, 0, l);
    } else {
      assert sizes[..n] == sizes;
    }
  }

  lemma {:induction false} FirstCodeTrim(sizes: seq<nat>, n: nat, l: nat)
    requires ZeroFrom(sizes, n)
    ensures FirstCode(sizes[..n], l) == FirstCode(sizes, l)
    ensures Used(sizes[..n], l) == Used(sizes, l)
  {
    if l > 0 {
      FirstCodeTrim(sizes, n, l - 1);
      CountTrim(sizes, n, l);
      if l > 1 {
        CountTrim(sizes, n, l - 1);
      }
    }
  }

  lemma {:induction false} AcceptedTrim(sizes: seq<nat>, n: nat)
    requires ZeroFrom(sizes, n) && Accepted(sizes)
    ensures Accepted(sizes[..n])
  {
    FirstCodeTrim(sizes, n, 16);
    FirstCodeTrim(sizes, n, 15);
    hide FirstCode, Used;
  }

  lemma {:induction false} CodesTrim(sizes: seq<nat>, codes: seq<nat>, n: nat)
    requires ZeroFrom(sizes, n) && CodesOf(sizes, codes)
    ensures CodesOf(sizes[..n], codes[..n])
  {
    forall s | 0 <= s < n && sizes[s] > 0
      ensures Transmitted(sizes[..n], s) == Transmitted(sizes, s)
    {
      FirstCodeTrim(sizes, n, sizes[s]);
      assert sizes[..n][..s] == sizes[..s];
    }
  }

  /** Lengths with zeros up to all `n` symbols. */
  ghost function Padded(sizes: seq<nat>, n: nat): (r: seq<nat>)
    requires |sizes| <= n
    ensures |r| == n && forall s | 0 <= s < n :: r[s] == if s < |sizes| then sizes[s] else 0
  {
    seq(n, s requires 0 <= s => if s < |sizes| then sizes[s] else 0)
  }

  lemma {:induction false} UsedBelow(counts: seq<Word16>, n: nat, m: nat)
    requires n <= m <= |counts| <= 0x10000 && forall s: nat | n <= s < m :: counts[s] == 0
    ensures |UsedEntries(counts, m)| <= n
  {
    if n < m {
      UsedBelow(counts, n, m - 1);
    }
  }

  /** The code lengths and codes for the symbols that occur. */
  method OptimizedCodes(counts: seq<Word16>, max: nat) returns (sizes: seq<nat>, codes: seq<nat>)
    requires |counts| <= 288 && Total(counts) < 0x10000 && 1 <= max <= 15 && |counts| <= Pow2(max)
    ensures |sizes| == |counts| && CodesOf(sizes, codes) && Accepted(sizes)
    ensures forall s: nat | s < |counts| :: sizes[s] <= max && (sizes[s] > 0 <==> counts[s] > 0)
    ensures LimitedCode(counts, max, sizes)
    ensures max == LIMIT && UsedCount(counts) <= 286 ==> NearlyOptimal(counts, sizes)
  {
    hide Total, Accepted, Transmitted, UsedEntries, Pow2, NearlyOptimal, LimitedCode;
    var sizeArray, codeArray := new nat[|counts|](_ => 0), new nat[|counts|](_ => 0);
    OptimizeHuffmanTable(counts, max, sizeArray, codeArray);
    sizes, codes := sizeArray[..], codeArray[..];
    forall s: nat | s < |counts|
      ensures sizes[s] <= max && (sizes[s] > 0 <==> counts[s] > 0)
    {
      var w: Word16 := s;
      assert sizeArray[w] == sizes[s];
    }
  }

  /** No zero is left at the end, but the first `least` lengths are kept. */
  ghost predicate Trimmed(sizes: seq<nat>, least: nat) {
    |sizes| > least ==> sizes[|sizes| - 1] > 0
  }

  /** How many lengths remain when zeros are dropped from the end, but at least `least`. */
  method NonzeroLength(sizes: seq<nat>, least: nat, most: nat) returns (n: nat)
    requires least <= most <= |sizes| && ZeroFrom(sizes, most)
    ensures least <= n <= most && ZeroFrom(sizes, n) && Trimmed(sizes[..n], least)
  {
    n := most;
    while n > least
      invariant least <= n <= most && ZeroFrom(sizes, n)
    {
      if sizes[n - 1] > 0 {
        break;
      }
      n := n - 1;
    }
  }

  /** How many lengths of the code-length code are sent. */
  method SentLengths(lens: seq<nat>) returns (sent: nat)
    requires |lens| == 19
    ensures 4 <= sent <= 19 && forall j: nat | sent <= j < 19 :: lens[Swizzle(j)] == 0
    ensures sent > 4 ==> lens[Swizzle(sent - 1)] > 0
  {
    hide Swizzle;
    var n := 18;
    while n >= 0
      invariant -1 <= n <= 18 && forall j: nat | n < j < 19 :: lens[Swizzle(j)] == 0
    {
      if lens[Swizzle(n)] > 0 {
        break;
      }
      n := n - 1;
    }
    sent := if n + 1 < 4 then 4 else n + 1;
  }

  // ---------------------------------------------------------------- writing

  /** Sizes and codes of one alphabet, as the encoder holds them. */
  datatype CodeTable = CodeTable(sizes: seq<nat>, codes: seq<nat>)

  /** The table has codes for exactly the symbols that occur. */
  ghost predicate TableFor(t: CodeTable, counts: seq<Word16>) {
    && CodesOf(t.sizes, t.codes) && Accepted(t.sizes) && |t.sizes| <= |counts|
    && (forall s: nat | s < |counts| :: counts[s] > 0 <==> HasCode(t.sizes, s))
  }

  /** Optimizes a table and drops the zeros at its end. */
  method TrimmedTable(counts: seq<Word16>, least: nat, most: nat) returns (t: CodeTable)
    requires least <= most <= |counts| <= 288 && Total(counts) < 0x10000
    requires most <= 286 && forall s: nat | most <= s < |counts| :: counts[s] == 0
    ensures least <= |t.sizes| <= most && TableFor(t, counts)
    ensures NearlyOptimal(counts, Padded(t.sizes, |counts|)) && UsedCount(counts) <= most
    ensures LimitedCode(counts, 15, Padded(t.sizes, |counts|)) && Trimmed(t.sizes, least)
  {
    hide Total, Accepted, UsedEntries, NearlyOptimal, LimitedCode;
    Pow2Values();
    Pow2Monotone(9, 15);
    assert Pow2(9) == 512;
    UsedBelow(counts, most, |counts|);
    var sizes, codes := OptimizedCodes(counts, 15);
    var n := NonzeroLength(sizes, least, most);
    AcceptedTrim(sizes, n);
    CodesTrim(sizes, codes, n);
    t := CodeTable(sizes[..n], codes[..n]);
    assert Padded(t.sizes, |counts|) == sizes;
  }

  lemma {:induction false} SizesBounded(t: CodeTable, counts: seq<Word16>)
    requires TableFor(t, counts)
    ensures forall i | 0 <= i < |t.sizes| :: t.sizes[i] < 16
  {
  }

  /** The code for the packed lengths serves all their tokens. */
  lemma {:induction false} TokensServed(ts: seq<Token>, lens: seq<nat>, counts: seq<Word16>)
    requires TokensOk(ts) && |lens| == |counts| == 19
    requires forall c: nat | c < 19 :: counts[c] == SymOccurs(ts, c)
    requires forall c: nat | c < 19 :: lens[c] <= 7 && (lens[c] > 0 <==> counts[c] > 0)
    ensures TokensUsable(ts, lens)
  {
    forall i | 0 <= i < |ts|
      ensures HasCode(lens, TokenSym(ts[i]))
    {
      TokenOccurring(ts, i);
    }
  }

  /** The packed form is that of the lengths run by run, coded for how often its tokens occur; the lengths of that code
      are sent up to the last that is not zero. */
  ghost predicate PackedHeader(h: Header) {
    && h.tokens == TokensOf(h.lit + h.dist) && TokensOk(h.tokens) && |h.lens| == 19 && 4 <= h.sent <= 19
    && (h.sent > 4 ==> h.lens[Swizzle(h.sent - 1)] > 0)
    && exists counts: seq<Word16> :: TokenCounts(counts, h.tokens) && LimitedCode(counts, 7, h.lens)
  }

  ghost predicate TokenCounts(counts: seq<Word16>, ts: seq<Token>)
    requires TokensOk(ts)
  {
    |counts| == 19 && forall c: nat | c < 19 :: counts[c] == SymOccurs(ts, c)
  }

  /** Packs the lengths of both tables and finds a code for the packed form. */
  method PackHeader(lit: seq<nat>, dist: seq<nat>) returns (packed: array<Byte>, num: nat, lens: CodeTable, sent: nat, ghost ts: seq<Token>)
    requires 257 <= |lit| <= 286 && 1 <= |dist| <= 30
    requires (forall i | 0 <= i < |lit| :: lit[i] < 16) && (forall i | 0 <= i < |dist| :: dist[i] < 16)
    requires Accepted(lit) && Accepted(dist)
    ensures num <= packed.Length && packed[..num] == Bytes(ts) && CodesOf(lens.sizes, lens.codes)
    ensures HeaderOk(Header(lit, dist, lens.sizes, sent, ts)) && PackedHeader(Header(lit, dist, lens.sizes, sent, ts))
  {
    hide Accepted, CodesOf, Bytes, ExpandTokens, Swizzle, Total, SymOccurs, Pow2, LimitedCode, TokensOf;
    packed := new Byte[MAX_CODE_SIZES](_ => 0);
    var counts := new Word16[19](_ => 0);
    num, ts := PackCodeSizes(lit + dist, packed, counts);
    PackedNoLonger(ts);
    TokenTotals(ts, counts[..]);
    SmallPowers();
    var sizes, codes := OptimizedCodes(counts[..], 7);
    TokensServed(ts, sizes, counts[..]);
    lens := CodeTable(sizes, codes);
    sent := SentLengths(sizes);
    assert TokenCounts(counts[..], ts);
  }

  /** The header that the compressor chooses: limited minimum-redundancy codes for exactly the symbols that occur. */
  ghost predicate ChosenHeader(h: Header, lits: seq<Word16>, dists: seq<Word16>) {
    && |h.lit| <= |lits| == 288 && |h.dist| <= |dists| == 32 && Trimmed(h.lit, 257) && Trimmed(h.dist, 1)
    && LimitedCode(lits, 15, Padded(h.lit, 288)) && LimitedCode(dists, 15, Padded(h.dist, 32))
    && PackedHeader(h)
  }

  /** Writes the header of a dynamic block. */
  method StartDynamicBlock(w: BitWriter, lits: seq<Word16>, dists: seq<Word16>)
    returns (lit: CodeTable, dist: CodeTable, ghost h: Header)
    requires w.Valid() && |lits| == 288 && |dists| == 32 && Total(lits) < 0x10000 && Total(dists) < 0x10000
    requires lits[286] == lits[287] == 0 && dists[30] == dists[31] == 0
    modifies w`out, w`bitBuffer, w`bitsIn, w`fields
    ensures TableFor(lit, lits) && TableFor(dist, dists) && HeaderOk(h) && h.lit == lit.sizes && h.dist == dist.sizes
    ensures NearlyOptimal(lits, Padded(lit.sizes, 288)) && UsedCount(lits) <= 286
    ensures NearlyOptimal(dists, Padded(dist.sizes, 32)) && UsedCount(dists) <= 30
    ensures ChosenHeader(h, lits, dists)
    ensures w.Valid() && w.fields == old(w.fields) + [Field(2, 2)] + HeaderFields(h)
  {
    hide Total, Accepted, CodesOf, Bytes, ExpandTokens, BitWriter.Valid, LensFields, PackedFields, NearlyOptimal, UsedEntries,
      LimitedCode, PackedHeader, TokensOf;
    SmallPowers();
    lit := TrimmedTable(lits, 257, 286);
    dist := TrimmedTable(dists, 1, 30);
    SizesBounded(lit, lits);
    SizesBounded(dist, dists);
    var packed, num, lens, sent;
    ghost var ts;
    packed, num, lens, sent, ts := PackHeader(lit.sizes, dist.sizes);
    h := Header(lit.sizes, dist.sizes, lens.sizes, sent, ts);
    w.PutBits(2, 2);
    w.PutBits(|lit.sizes| - 257, 5);
    w.PutBits(|dist.sizes| - 1, 5);
    w.PutBits(sent - 4, 4);
    PutLens(w, lens.sizes, sent);
    PutPacked(w, packed, num, lens.sizes, lens.codes, ts);
  }

  // ---------------------------------------------------------------- the static codes (section 3.2.6 of RFC 1951)

  function StaticLit(): (r: seq<nat>)
    ensures |r| == 288 && forall i | 0 <= i < 288 :: 7 <= r[i] <= 9
  {
    seq(288, i => if i <= 143 then 8 else if i <= 255 then 9 else if i <= 279 then 7 else 8)
  }

  function StaticDist(): (r: seq<nat>)
    ensures |r| == 32 && forall i | 0 <= i < 32 :: r[i] == 5
  {
    seq(32, _ => 5)
  }

  lemma {:induction false} CountUniform(sizes: seq<nat>, from: nat, n: nat, v: nat, l: nat)
    requires from <= n <= |sizes| && forall i | from <= i < n :: sizes[i] == v
    ensures Count(sizes[..n], l) == Count(sizes[..from], l) + (if v == l then n - from else 0)
    decreases n
  {
    if from < n {
      CountUniform(sizes, from, n - 1, v, l);
      assert sizes[..n] == sizes[..n - 1] + [v];
      CountAppend(sizes[..n - 1], v, l);
    }
  }

  lemma {:induction false} StaticCounts(l: nat)
    ensures Count(StaticLit(), l) == if l == 7 then 24 else if l == 8 then 152 else if l == 9 then 112 else 0
    ensures Count(StaticDist(), l) == if l == 5 then 32 else 0
  {
    var s, d := StaticLit(), StaticDist();
    assert s[..0] == [] && d[..0] == [];
    CountNone();
    CountUniform(s, 0, 144, 8, l);
    CountUniform(s, 144, 256, 9, l);
    CountUniform(s, 256, 280, 7, l);
    CountUniform(s, 280, 288, 8, l);
    CountUniform(d, 0, 32, 5, l);
    assert s[..288] == s && d[..32] == d;
  }

  /** How the first codes go on where no code has these lengths. */
  lemma {:induction false} FirstCodeDoubles(sizes: seq<nat>, l: nat, k: nat)
    requires l >= 1 && forall i: nat | l <= i < l + k :: Count(sizes, i) == 0
    ensures FirstCode(sizes, l + k) == FirstCode(sizes, l) * Pow2(k)
  {
    if k > 0 {
      FirstCodeDoubles(sizes, l, k - 1);
      assert FirstCode(sizes, l) * Pow2(k) == 2 * (FirstCode(sizes, l) * Pow2(k - 1));
    }
  }

  lemma {:induction false} StaticComplete()
    ensures Accepted(StaticLit()) && Accepted(StaticDist())
  {
    StaticFirstCodes();
    Pow2Values();
  }

  lemma {:induction false} StaticFirstCodes()
    ensures var s := StaticLit();
            FirstCode(s, 7) == 0 && FirstCode(s, 8) == 0x30 && FirstCode(s, 9) == 0x190 && FirstCode(s, 16) == 0x1_0000
    ensures FirstCode(StaticDist(), 5) == 0 && FirstCode(StaticDist(), 16) == 0x1_0000
  {
    var s, d := StaticLit(), StaticDist();
    forall l: nat
      ensures Count(s, l) == (if l == 7 then 24 else if l == 8 then 152 else if l == 9 then 112 else 0)
      ensures Count(d, l) == if l == 5 then 32 else 0
    {
      StaticCounts(l);
    }
    hide Count, StaticLit, StaticDist;
    SmallPowers();
    Pow2Values();
    hide Pow2;
    FirstCodeDoubles(s, 1, 6);
    FirstCodeDoubles(s, 10, 6);
    FirstCodeDoubles(d, 1, 4);
    FirstCodeDoubles(d, 6, 10);
    assert FirstCode(s, 1) == 0 && FirstCode(d, 1) == 0;
    assert FirstCode(s, 8) == 48 && FirstCode(s, 9) == 400 && FirstCode(s, 10) == 1024;
    assert FirstCode(d, 6) == 64;
  }

  /** The fixed codes of the format. */
  lemma {:induction false} FixedCodes(s: nat)
    requires s < 288
    ensures CodeOf(StaticLit(), s) == if s < 144 then 0x30 + s else if s < 256 then 0x190 + (s - 144)
                                      else if s < 280 then s - 256 else 0xC0 + (s - 280)
    ensures StaticLit()[s] == if s < 144 then 8 else if s < 256 then 9 else if s < 280 then 7 else 8
    ensures s < 32 ==> CodeOf(StaticDist(), s) == s
  {
    var f, d := StaticLit(), StaticDist();
    StaticFirstCodes();
    hide Count, FirstCode, StaticDist;
    assert f[..0] == [] && d[..0] == [];
    CountNone();
    if s < 144 {
      CountUniform(f, 0, s, 8, 8);
    } else if s < 256 {
      CountUniform(f, 0, 144, 8, 9);
      CountUniform(f, 144, s, 9, 9);
    } else if s < 280 {
      CountUniform(f, 0, 144, 8, 7);
      CountUniform(f, 144, 256, 9, 7);
      CountUniform(f, 256, s, 7, 7);
    } else {
      CountUniform(f, 0, 144, 8, 8);
      CountUniform(f, 144, 256, 9, 8);
      CountUniform(f, 256, 280, 7, 8);
      CountUniform(f, 280, s, 8, 8);
    }
    if s < 32 {
      CountUniform(d, 0, s, 5, 5);
    }
  }

  /** How many symbols have each code length. */
  method SizeHistogram(sizes: seq<nat>) returns (num: array<int>)
    requires forall i | 0 <= i < |sizes| :: sizes[i] < 33
    ensures fresh(num) && num.Length == 33 && forall l: nat | l < 33 :: num[l] == Count(sizes, l)
  {
    hide Count;
    num := new int[33](_ => 0);
    var i := 0;
    assert sizes[..0] == [];
    CountNone();
    while i < |sizes|
      invariant 0 <= i <= |sizes| && forall l: nat | l < 33 :: num[l] == Count(sizes[..i], l)
    {
      CountsOneMore(sizes, i);
      num[sizes[i]] := num[sizes[i]] + 1;
      i := i + 1;
    }
    assert sizes[..i] == sizes;
  }

  lemma {:induction false} CountsOneMore(sizes: seq<nat>, i: nat)
    requires i < |sizes|
    ensures forall l: nat :: Count(sizes[..i + 1], l) == Count(sizes[..i], l) + (if sizes[i] == l then 1 else 0)
  {
    forall l: nat
      ensures Count(sizes[..i + 1], l) == Count(sizes[..i], l) + (if sizes[i] == l then 1 else 0)
    {
      assert sizes[..i + 1] == sizes[..i] + [sizes[i]];
      CountAppend(sizes[..i], sizes[i], l);
    }
  }

  /** The codes for given code lengths. */
  method CodesFor(sizes: seq<nat>) returns (t: CodeTable)
    requires forall i | 0 <= i < |sizes| :: sizes[i] < 16
    ensures t.sizes == sizes && CodesOf(t.sizes, t.codes)
  {
    hide Count, Transmitted;
    var num := SizeHistogram(sizes);
    var sizeArray, codeArray := new nat[|sizes|](i requires 0 <= i < |sizes| => sizes[i]), new nat[|sizes|](_ => 0);
    assert sizeArray[..] == sizes;
    AssignCodes(sizeArray, num, 15, codeArray);
    assert sizeArray[..] == sizes;
    t := CodeTable(sizes, codeArray[..]);
  }

  // ---------------------------------------------------------------- blocks

  /** The codes and the end of the block. */
  ghost function CodesAndEnd(cs: seq<Code>, lit: seq<nat>, dist: seq<nat>): seq<Field>
    requires AllUsable(cs, lit, dist) && HasCode(lit, END_OF_BLOCK)
  {
    BodyFields(cs, lit, dist) + [HuffField(lit, END_OF_BLOCK)]
  }

  /** A block, from its type on, that carries `cs` with codes of its own. */
  ghost predicate DynamicBlock(fs: seq<Field>, cs: seq<Code>, h: Header) {
    && HeaderOk(h) && AllUsable(cs, h.lit, h.dist) && HasCode(h.lit, END_OF_BLOCK)
    && fs == [Field(2, 2)] + (HeaderFields(h) + CodesAndEnd(cs, h.lit, h.dist))
  }

  /** The counts of the symbols of a block, its end included. */
  ghost predicate BlockCounts(lits: seq<Word16>, dists: seq<Word16>, cs: seq<Code>)
    requires AllExpressible(cs)
  {
    && |lits| == 288 && |dists| == 32 && lits[END_OF_BLOCK] == 1
    && (forall s: nat | s < 288 && s != END_OF_BLOCK :: lits[s] == LitOccurs(cs, s))
    && (forall s: nat | s < 32 :: dists[s] == DistOccurs(cs, s))
  }

  /** A dynamic block with the chosen header. Its codes are close to the best there are. */
  ghost predicate Thrifty(fs: seq<Field>, cs: seq<Code>, h: Header, lits: seq<Word16>, dists: seq<Word16>) {
    && AllExpressible(cs) && DynamicBlock(fs, cs, h) && BlockCounts(lits, dists, cs)
    && ChosenHeader(h, lits, dists)
    && NearlyOptimal(lits, Padded(h.lit, 288)) && UsedCount(lits) <= 286
    && NearlyOptimal(dists, Padded(h.dist, 32)) && UsedCount(dists) <= 30
  }

  ghost predicate ThriftyBlock(fs: seq<Field>, cs: seq<Code>) {
    exists h, lits, dists :: Thrifty(fs, cs, h, lits, dists)
  }

  ghost predicate StaticBlock(fs: seq<Field>, cs: seq<Code>) {
    && AllUsable(cs, StaticLit(), StaticDist())
    && fs == [Field(1, 2)] + CodesAndEnd(cs, StaticLit(), StaticDist())
  }

  ghost predicate CompressedBlock(fs: seq<Field>, cs: seq<Code>) {
    StaticBlock(fs, cs) || exists h :: DynamicBlock(fs, cs, h)
  }

  /** What the block writer needs of the recorded codes: their bytes and the counts of their symbols. */
  ghost predicate ReadyToWrite(lz: LzBuffer)
    reads lz, lz.codeBuf, lz.litCounts, lz.distCounts
  {
    && lz.Shape() && lz.end <= CODE_BUF_SIZE && AllExpressible(lz.codes)
    && lz.codeBuf[..lz.end] == Serialized(lz.codes)
    && |lz.codes| < 0xFFFF
  }

  lemma {:induction false} StaticUsable(cs: seq<Code>)
    requires AllExpressible(cs)
    ensures AllUsable(cs, StaticLit(), StaticDist()) && HasCode(StaticLit(), END_OF_BLOCK)
  {
  }

  /** The optimized tables serve all codes. */
  lemma {:induction false} TablesServe(cs: seq<Code>, lits: seq<Word16>, dists: seq<Word16>, lit: CodeTable, dist: CodeTable)
    requires AllExpressible(cs) && |lits| == 288 && |dists| == 32 && TableFor(lit, lits) && TableFor(dist, dists)
    requires forall s: nat | s < 288 && s != END_OF_BLOCK :: lits[s] == LitOccurs(cs, s)
    requires lits[END_OF_BLOCK] == 1 && forall s: nat | s < 32 :: dists[s] == DistOccurs(cs, s)
    ensures AllUsable(cs, lit.sizes, dist.sizes) && HasCode(lit.sizes, END_OF_BLOCK)
  {
    hide CodesOf, LitSymOf, LitOccurs, DistOccurs, DistSym, HasCode;
    forall i | 0 <= i < |cs|
      ensures Usable(cs[i], lit.sizes, dist.sizes)
    {
      Occurring(cs, i);
    }
  }

  /** The counts with one end of block, as 16-bit numbers. */
  method FinalCounts(lz: LzBuffer) returns (lits: seq<Word16>, dists: seq<Word16>)
    requires ReadyToWrite(lz) && Counted(lz.litCounts[..], lz.distCounts[..], lz.codes)
    modifies lz.litCounts
    ensures |lits| == 288 && |dists| == 32 && lits[286] == lits[287] == 0 && dists[30] == dists[31] == 0
    ensures Total(lits) < 0x10000 && Total(dists) < 0x10000
    ensures forall s: nat | s < 288 && s != END_OF_BLOCK :: lits[s] == LitOccurs(lz.codes, s)
    ensures lits[END_OF_BLOCK] == 1 && forall s: nat | s < 32 :: dists[s] == DistOccurs(lz.codes, s)
  {
    hide Serialized, Total, LitOccurs, DistOccurs;
    NeverOccurring(lz.codes);
    CodeTotals(lz.codes, lz.litCounts[..], lz.distCounts[..]);
    ghost var before: seq<nat> := lz.litCounts[..];
    lz.litCounts[END_OF_BLOCK] := 1;
    TotalOneMore(before, lz.litCounts[..], END_OF_BLOCK);
    lits, dists := lz.litCounts[..], lz.distCounts[..];
  }

  /** Writes the recorded codes as one block; `ok` unless the output is full. */
  method CompressBlock(w: BitWriter, lz: LzBuffer, staticBlock: bool) returns (ok: bool, ghost fs: seq<Field>)
    requires w.Valid() && ReadyToWrite(lz)
    requires !staticBlock ==> Counted(lz.litCounts[..], lz.distCounts[..], lz.codes)
    modifies w`out, w`bitBuffer, w`bitsIn, w`fields, lz.litCounts
    ensures w.Valid() && w.fields == old(w.fields) + fs && CompressedBlock(fs, lz.codes)
    ensures if staticBlock then StaticBlock(fs, lz.codes) else ThriftyBlock(fs, lz.codes)
    ensures ok <==> |w.out| < w.limit
  {
    hide BitWriter.Valid, Serialized, Counted, HeaderOk, HeaderFields, CodesOf, AllUsable, BodyFields, HasCode, HuffField, Total,
      StaticLit, StaticDist, Accepted, Pow2, NearlyOptimal, UsedEntries, ChosenHeader;
    ghost var cs := lz.codes;
    if staticBlock {
      var lit := CodesFor(StaticLit());
      var dist := CodesFor(StaticDist());
      StaticUsable(cs);
      SmallPowers();
      w.PutBits(1, 2);
      ok := CompressLzCodes(w, lz.codeBuf, lz.end, lit.sizes, lit.codes, dist.sizes, dist.codes, cs);
      fs := [Field(1, 2)] + CodesAndEnd(cs, StaticLit(), StaticDist());
    } else {
      var lits, dists := FinalCounts(lz);
      var lit, dist;
      ghost var h;
      lit, dist, h := StartDynamicBlock(w, lits, dists);
      TablesServe(cs, lits, dists, lit, dist);
      ok := CompressLzCodes(w, lz.codeBuf, lz.end, lit.sizes, lit.codes, dist.sizes, dist.codes, cs);
      fs := [Field(2, 2)] + (HeaderFields(h) + CodesAndEnd(cs, h.lit, h.dist));
      assert DynamicBlock(fs, cs, h);
      assert Thrifty(fs, cs, h, lits, dists);
    }
  }
}
