/** A block with codes of its own always fits the output buffer. */
module DynamicSize {
  import opened Powers
  import opened LzCodes
  import opened LzCodeBuffer
  import opened LzBuffers
  import opened SymbolFrequency
  import opened PrefixCode
  import opened LengthCounts
  import opened LimitedCost
  import opened UsedSymbols
  import opened HuffmanTable
  import opened BitStream
  import opened InflateBudget
  import opened CodeLengthPacking
  import opened DeflateSymbols
  import opened DeflateCodes
  import opened DeflateHeader
  import opened DeflateBlock
  import opened DeflateStream

  // ---------------------------------------------------------------- the width of the codes by symbol

  lemma {:induction false} CostOneMore(a: seq<nat>, b: seq<nat>, g: seq<nat>, s: nat)
    requires |a| == |b| == |g| && s < |a| && b[s] == a[s] + 1
    requires forall c: nat | c < |a| && c != s :: b[c] == a[c]
    ensures CostOf(b, g) == CostOf(a, g) + g[s]
    decreases |a|
  {
    var n := |a| - 1;
    if s < n {
      CostOneMore(a[..n], b[..n], g[..n], s);
    } else {
      assert a[..n] == b[..n];
      assert b[n] * g[n] == a[n] * g[n] + g[n];
    }
  }

  lemma {:induction false} CostOfNothing(a: seq<nat>, g: seq<nat>)
    requires |a| == |g| && forall c | 0 <= c < |a| :: a[c] == 0
    ensures CostOf(a, g) == 0
  {
    if a != [] {
      CostOfNothing(a[..|a| - 1], g[..|g| - 1]);
    }
  }

  /** The extra bits of lengths and distances. */
  ghost function ExtraWidth(cs: seq<Code>): nat
    requires AllExpressible(cs)
  {
    if cs == [] then 0
    else
      var c := cs[|cs| - 1];
      ExtraWidth(cs[..|cs| - 1]) + (if c.Match? then LenExtra(c.len - MIN_MATCH_LEN) + DistExtra(c.dist - 1) else 0)
  }

  lemma {:induction false} CodeWidth(c: Code, lit: seq<nat>, dist: seq<nat>)
    requires Usable(c, lit, dist)
    ensures Width(CodeFields(c, lit, dist))
         == lit[LitSymOf(c)] + (if c.Match? then dist[DistSym(c.dist - 1)] + LenExtra(c.len - MIN_MATCH_LEN) + DistExtra(c.dist - 1) else 0)
  {
    hide Width, LenSym, DistSym, Pow2, LenExtra, DistExtra;
    if c.Literal? {
      WidthOne(HuffField(lit, c.value));
    } else {
      var a, b, f, g := HuffField(lit, LitSymOf(c)), LengthExtraField(c.len), HuffField(dist, DistSym(c.dist - 1)), DistExtraField(c.dist);
      assert CodeFields(c, lit, dist) == [a] + [b] + [f] + [g];
      WidthOne(a);
      WidthOne(b);
      WidthOne(f);
      WidthOne(g);
      WidthConcat([a], [b]);
      WidthConcat([a] + [b], [f]);
      WidthConcat([a] + [b] + [f], [g]);
    }
  }

  ghost function LitCounts(cs: seq<Code>): (r: seq<nat>)
    requires AllExpressible(cs)
    ensures |r| == 288 && forall s | 0 <= s < 288 :: r[s] == LitOccurs(cs, s)
  {
    seq(288, s requires 0 <= s => LitOccurs(cs, s))
  }

  ghost function DistCounts(cs: seq<Code>): (r: seq<nat>)
    requires AllExpressible(cs)
    ensures |r| == 32 && forall s | 0 <= s < 32 :: r[s] == DistOccurs(cs, s)
  {
    seq(32, s requires 0 <= s => DistOccurs(cs, s))
  }

  /** Symbol by symbol: occurrences times code lengths, and the extra bits. */
  lemma {:induction false} BodyWidth(cs: seq<Code>, lit: seq<nat>, dist: seq<nat>)
    requires AllUsable(cs, lit, dist) && |lit| <= 288 && |dist| <= 32
    ensures AllExpressible(cs)
    ensures Width(BodyFields(cs, lit, dist))
         == CostOf(LitCounts(cs), Padded(lit, 288)) + CostOf(DistCounts(cs), Padded(dist, 32)) + ExtraWidth(cs)
  {
    hide Width, CostOf, LitOccurs, DistOccurs, CodeFields, LenExtra, DistExtra, LitSymOf, DistSym;
    if cs == [] {
      NoCodes();
      CostOfNothing(LitCounts(cs), Padded(lit, 288));
      CostOfNothing(DistCounts(cs), Padded(dist, 32));
    } else {
      var front, c := cs[..|cs| - 1], cs[|cs| - 1];
      BodyWidth(front, lit, dist);
      assert cs == front + [c];
      OccursOne(front, c);
      CodeWidth(c, lit, dist);
      WidthConcat(BodyFields(front, lit, dist), CodeFields(c, lit, dist));
      CostOneMore(LitCounts(front), LitCounts(cs), Padded(lit, 288), LitSymOf(c));
      if c.Match? {
        CostOneMore(DistCounts(front), DistCounts(cs), Padded(dist, 32), DistSym(c.dist - 1));
      } else {
        assert DistCounts(front) == DistCounts(cs);
      }
    }
  }

  lemma NoCodes()
    ensures Width([]) == 0 && forall s: nat :: LitOccurs([], s) == 0 && DistOccurs([], s) == 0
  {
  }

  /** With the end of the block. */
  lemma {:induction false} CodesAndEndWidth(cs: seq<Code>, lits: seq<Word16>, dists: seq<Word16>, lit: seq<nat>, dist: seq<nat>)
    requires AllUsable(cs, lit, dist) && HasCode(lit, END_OF_BLOCK) && |lit| <= 288 && |dist| <= 32
    requires AllExpressible(cs) && BlockCounts(lits, dists, cs)
    ensures Width(CodesAndEnd(cs, lit, dist))
         == CostOf(lits, Padded(lit, 288)) + CostOf(dists, Padded(dist, 32)) + ExtraWidth(cs)
  {
    hide Width, CostOf, LitOccurs, DistOccurs, BodyFields, HuffField, AllUsable, ExtraWidth;
    BodyWidth(cs, lit, dist);
    EndNeverRecorded(cs);
    CostOneMore(LitCounts(cs), lits, Padded(lit, 288), END_OF_BLOCK);
    assert DistCounts(cs) == dists;
    WidthConcat(BodyFields(cs, lit, dist), [HuffField(lit, END_OF_BLOCK)]);
    EndWidth(lit);
  }

  lemma EndNeverRecorded(cs: seq<Code>)
    requires AllExpressible(cs)
    ensures LitOccurs(cs, END_OF_BLOCK) == 0
  {
    NeverOccurring(cs);
  }

  lemma EndWidth(lit: seq<nat>)
    requires HasCode(lit, END_OF_BLOCK)
    ensures Width([HuffField(lit, END_OF_BLOCK)]) == lit[END_OF_BLOCK]
  {
    WidthOne(HuffField(lit, END_OF_BLOCK));
  }

  // ---------------------------------------------------------------- the static codes are codes

  lemma StaticParts()
    ensures StaticLit() == ((LengthCounts.Copies(8, 144) + LengthCounts.Copies(9, 112)) + LengthCounts.Copies(7, 24))
                           + LengthCounts.Copies(8, 8)
    ensures StaticDist() == LengthCounts.Copies(5, 32)
  {
  }

  lemma {:induction false} CopiesRoom(v: nat, n: nat)
    requires 5 <= v <= 9
    ensures AtMost(LengthCounts.Copies(v, n), LIMIT)
    ensures KraftSum(LengthCounts.Copies(v, n), LIMIT)
         == n * if v == 5 then 1024 else if v == 6 then 512 else if v == 7 then 256 else if v == 8 then 128 else 64
  {
    KraftSumCopies(v, n, LIMIT);
    SmallPow2();
    assert Pow2(10) == 1024;
  }

  lemma {:induction false} StaticAreCodes()
    ensures SomeCode(StaticLit()) && SomeCode(StaticDist())
  {
    hide KraftSum, Pow2, StaticLit, StaticDist;
    StaticParts();
    var a, b, c, d := LengthCounts.Copies(8, 144), LengthCounts.Copies(9, 112), LengthCounts.Copies(7, 24), LengthCounts.Copies(8, 8);
    CopiesRoom(8, 144);
    CopiesRoom(9, 112);
    CopiesRoom(7, 24);
    CopiesRoom(8, 8);
    CopiesRoom(5, 32);
    KraftSumConcat(a, b, LIMIT);
    KraftSumConcat(a + b, c, LIMIT);
    KraftSumConcat((a + b) + c, d, LIMIT);
    LimitPower();
  }

  lemma LimitPower()
    ensures Pow2(LIMIT) == 32768
  {
    Pow2Add(9, 6);
    SmallPow2();
  }

  // ---------------------------------------------------------------- close to the static codes

  lemma {:induction false} BlockTotals(cs: seq<Code>, lits: seq<Word16>, dists: seq<Word16>)
    requires AllExpressible(cs) && BlockCounts(lits, dists, cs)
    ensures Total(lits) == |cs| + 1 && Total(dists) <= |cs|
  {
    hide LitOccurs, DistOccurs, Total;
    CodeTotals(cs, LitCounts(cs), DistCounts(cs));
    EndNeverRecorded(cs);
    TotalOneMore(LitCounts(cs), lits, END_OF_BLOCK);
    assert DistCounts(cs) == dists;
  }

  /** The codes of a thrifty block take at most one bit for each symbol more than the static codes would. */
  lemma {:induction false} CloseToStatic(fs: seq<Field>, cs: seq<Code>, h: Header, lits: seq<Word16>, dists: seq<Word16>)
    requires Thrifty(fs, cs, h, lits, dists)
    ensures AllUsable(cs, StaticLit(), StaticDist()) && HasCode(StaticLit(), END_OF_BLOCK)
    ensures Width(CodesAndEnd(cs, h.lit, h.dist)) <= Width(CodesAndEnd(cs, StaticLit(), StaticDist())) + |cs| + 1
  {
    hide Width, CostOf, Total, ExtraWidth, AllUsable, CodesAndEnd, UsedEntries, StaticLit, StaticDist, KraftSum, Pow2, HeaderFields,
      Accepted, LitOccurs, DistOccurs, ExpandTokens, ChosenHeader;
    StaticUsable(cs);
    StaticAreCodes();
    CodesAndEndWidth(cs, lits, dists, h.lit, h.dist);
    CodesAndEndWidth(cs, lits, dists, StaticLit(), StaticDist());
    BlockTotals(cs, lits, dists);
    assert Padded(StaticLit(), 288) == StaticLit() && Padded(StaticDist(), 32) == StaticDist();
    PercentAtMost(UsedCount(lits), Total(lits), 91);
    PercentAtMost(UsedCount(dists), Total(dists), 9);
  }

  lemma PercentAtMost(n: nat, total: nat, p: nat)
    requires Percent(n) <= p
    ensures Percent(n) * total <= p * total
  {
  }

  // ---------------------------------------------------------------- the whole block

  lemma {:induction false} LensWidth(lens: seq<nat>, from: nat, end: nat)
    requires |lens| == 19 && from <= end <= 19
    ensures Width(LensFields(lens, from, end)) == 3 * (end - from)
    decreases end - from
  {
    hide Swizzle;
    if from < end {
      LensWidth(lens, from + 1, end);
      WidthConcat([Field(lens[Swizzle(from)], 3)], LensFields(lens, from + 1, end));
      WidthOne(Field(lens[Swizzle(from)], 3));
    }
  }

  lemma {:induction false} TokenWidth(t: Token, lens: seq<nat>)
    requires TokenOk(t) && HasCode(lens, TokenSym(t)) && |lens| == 19 && forall s | 0 <= s < 19 :: lens[s] < 8
    ensures Width(TokenFields(t, lens)) <= 14
  {
    WidthOne(HuffField(lens, TokenSym(t)));
    if !t.Size? {
      var f := Field(Extra(t), ExtraBits(TokenSym(t)));
      WidthOne(f);
      WidthConcat([HuffField(lens, TokenSym(t))], [f]);
      assert TokenFields(t, lens) == [HuffField(lens, TokenSym(t))] + [f];
    } else {
      assert TokenFields(t, lens) == [HuffField(lens, TokenSym(t))];
    }
  }

  lemma {:induction false} PackedWidth(ts: seq<Token>, lens: seq<nat>)
    requires TokensUsable(ts, lens) && |lens| == 19 && forall s | 0 <= s < 19 :: lens[s] < 8
    ensures Width(PackedFields(ts, lens)) <= 14 * |ts|
  {
    hide TokenFields, Width, HasCode;
    if ts == [] {
      NoCodes();
    } else {
      PackedWidth(ts[1..], lens);
      TokenWidth(ts[0], lens);
      WidthConcat(TokenFields(ts[0], lens), PackedFields(ts[1..], lens));
    }
  }

  lemma {:induction false} HeaderWidth(h: Header)
    requires HeaderOk(h)
    ensures Width(HeaderFields(h)) <= 4551
  {
    hide Width, ExpandTokens, Bytes, Accepted, LensFields, PackedFields, Swizzle, HasCode;
    var a, b, c := Field(|h.lit| - 257, 5), Field(|h.dist| - 1, 5), Field(h.sent - 4, 4);
    PackedNoLonger(h.tokens);
    LensWidth(h.lens, 0, h.sent);
    PackedWidth(h.tokens, h.lens);
    assert [a, b, c] == [a] + [b] + [c];
    WidthOne(a);
    WidthOne(b);
    WidthOne(c);
    WidthConcat([a], [b]);
    WidthConcat([a] + [b], [c]);
    WidthConcat([a, b, c], LensFields(h.lens, 0, h.sent));
    WidthConcat([a, b, c] + LensFields(h.lens, 0, h.sent), PackedFields(h.tokens, h.lens));
  }

  /** One bit more for each code, measured against the code buffer with its flags. */
  lemma {:induction false} StaticBodyAndFlags(cs: seq<Code>)
    requires AllExpressible(cs) && AllUsable(cs, StaticLit(), StaticDist())
    ensures 25 * (Width(BodyFields(cs, StaticLit(), StaticDist())) + |cs|) <= 32 * (8 * |Items(cs)| + |cs|)
  {
    hide Width, CodeFields, StaticLit, StaticDist;
    if cs == [] {
      NoCodes();
    } else {
      var front, c := cs[..|cs| - 1], cs[|cs| - 1];
      StaticBodyAndFlags(front);
      StaticCodeWidth(c);
      WidthConcat(BodyFields(front, StaticLit(), StaticDist()), CodeFields(c, StaticLit(), StaticDist()));
    }
  }

  /** A block with codes of its own fits the output buffer, and leaves room for the end of the stream or a flush. */
  lemma {:induction false} ThriftyFits(fs: seq<Field>, cs: seq<Code>)
    requires ThriftyBlock(fs, cs) && AllExpressible(cs) && |Serialized(cs)| <= CODE_BUF_SIZE
    ensures Width(fs) + 64 <= 8 * (OUT_BUF_SIZE - 16)
  {
    hide Width, HeaderFields, CodesAndEnd, Items, Serialized, StaticLit, StaticDist, AllUsable, HeaderOk, BlockCounts, NearlyOptimal, ChosenHeader,
      UsedEntries;
    var h, lits, dists :| Thrifty(fs, cs, h, lits, dists);
    CloseToStatic(fs, cs, h, lits, dists);
    HeaderWidth(h);
    StaticEnd(cs);
    StaticBodyAndFlags(cs);
    ItemsAndFlags(cs);
    WidthConcat([Field(2, 2)], HeaderFields(h) + CodesAndEnd(cs, h.lit, h.dist));
    WidthConcat(HeaderFields(h), CodesAndEnd(cs, h.lit, h.dist));
    WidthOne(Field(2, 2));
  }

  lemma StaticEnd(cs: seq<Code>)
    requires AllUsable(cs, StaticLit(), StaticDist()) && HasCode(StaticLit(), END_OF_BLOCK)
    ensures Width(CodesAndEnd(cs, StaticLit(), StaticDist())) == Width(BodyFields(cs, StaticLit(), StaticDist())) + 7
  {
    hide Width, BodyFields;
    WidthConcat(BodyFields(cs, StaticLit(), StaticDist()), [HuffField(StaticLit(), END_OF_BLOCK)]);
    EndWidth(StaticLit());
  }
}
