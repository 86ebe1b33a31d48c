/** The header of a dynamic block (section 3.2.7 of RFC 1951): three sets of code lengths. */
module DeflateHeader {
  import opened Powers
  import opened LzCodes
  import opened BitStream
  import opened InflateBudget
  import opened CodeLengthPacking
  import opened DeflateCodes
  import opened DeflateSymbols

  /** The order in which the lengths of the code-length codes are sent. */
  const SWIZZLE: seq<nat> := [16, 17, 18, 0, 8, 7, 9, 6, 10, 5, 11, 4, 12, 3, 13, 2, 14, 1, 15]

  function Swizzle(j: nat): (s: nat)
    requires j < 19
    ensures s < 19
  {
    SWIZZLE[j]
  }

  /** The order of the format: the three kinds of runs, zero, and then upwards from 8 and downwards from 7 in turn. */
  lemma {:induction false} SwizzleOrder(s: nat)
    ensures s < 3 ==> Swizzle(s) == 16 + s
    ensures Swizzle(3) == 0
    ensures 1 <= s <= 7 ==> Swizzle(19 - 2 * s) == s
    ensures 8 <= s <= 15 ==> Swizzle(4 + 2 * (s - 8)) == s
  {
  }

  /** Every code-length symbol has its place in the order. */
  lemma {:induction false} SwizzleCovers(s: nat) returns (j: nat)
    requires s < 19
    ensures j < 19 && Swizzle(j) == s
  {
    j := if s == 0 then 3 else if s == 16 then 0 else if s == 17 then 1 else if s == 18 then 2
    else if s >= 8 then 4 + 2 * (s - 8) else 19 - 2 * s;
  }

  /** The two codes, the lengths of the code-length code, how many of those are sent, and the packed lengths. */
  datatype Header = Header(lit: seq<nat>, dist: seq<nat>, lens: seq<nat>, sent: nat, tokens: seq<Token>)

  ghost predicate TokensUsable(ts: seq<Token>, lens: seq<nat>) {
    forall i | 0 <= i < |ts| :: TokenOk(ts[i]) && HasCode(lens, TokenSym(ts[i]))
  }

  ghost predicate HeaderOk(h: Header) {
    && 257 <= |h.lit| <= 288 && 1 <= |h.dist| <= 32 && |h.lens| == 19 && 4 <= h.sent <= 19
    && Accepted(h.lit) && Accepted(h.dist) && Accepted(h.lens)
    && (forall s | 0 <= s < 19 :: h.lens[s] < 8)
    && (forall j: nat | h.sent <= j < 19 :: h.lens[Swizzle(j)] == 0)
    && TokensUsable(h.tokens, h.lens) && WellStarted(h.tokens)
    && ExpandTokens(h.tokens) == h.lit + h.dist
  }

  ghost function LensFields(lens: seq<nat>, from: nat, end: nat): seq<Field>
    requires |lens| == 19 && from <= end <= 19
    decreases end - from
  {
    if from == end then [] else [Field(lens[Swizzle(from)], 3)] + LensFields(lens, from + 1, end)
  }

  ghost function TokenFields(t: Token, lens: seq<nat>): seq<Field>
    requires TokenOk(t) && HasCode(lens, TokenSym(t))
  {
    [HuffField(lens, TokenSym(t))] + (if t.Size? then [] else [Field(Extra(t), ExtraBits(TokenSym(t)))])
  }

  ghost function PackedFields(ts: seq<Token>, lens: seq<nat>): seq<Field>
    requires TokensUsable(ts, lens)
  {
    if ts == [] then [] else TokenFields(ts[0], lens) + PackedFields(ts[1..], lens)
  }

  ghost function HeaderFields(h: Header): seq<Field>
    requires HeaderOk(h)
  {
    [Field(|h.lit| - 257, 5), Field(|h.dist| - 1, 5), Field(h.sent - 4, 4)]
    + LensFields(h.lens, 0, h.sent) + PackedFields(h.tokens, h.lens)
  }

  // ---------------------------------------------------------------- writing

  method PutLens(w: BitWriter, lens: seq<nat>, sent: nat)
    requires w.Valid() && |lens| == 19 && sent <= 19 && forall s | 0 <= s < 19 :: lens[s] < 8
    modifies w`out, w`bitBuffer, w`bitsIn, w`fields
    ensures w.Valid() && w.fields == old(w.fields) + LensFields(lens, 0, sent)
  {
    hide BitWriter.Valid, Swizzle, Pow2;
    SmallPowers();
    var j := 0;
    while j < sent
      invariant 0 <= j <= sent && w.Valid()
      invariant w.fields + LensFields(lens, j, sent) == old(w.fields) + LensFields(lens, 0, sent)
    {
      w.PutBits(lens[Swizzle(j)], 3);
      j := j + 1;
    }
  }

  /** The packed bytes of the tokens from `i` on. */
  lemma {:induction false} BytesAt(ts: seq<Token>, i: nat)
    requires i < |ts|
    ensures |Bytes(ts[..i + 1])| == |Bytes(ts[..i])| + |TokenBytes(ts[i])| <= |Bytes(ts)|
    ensures Bytes(ts)[|Bytes(ts[..i])|..|Bytes(ts[..i + 1])|] == TokenBytes(ts[i])
    decreases |ts|
  {
    hide TokenBytes;
    var n := |ts| - 1;
    assert ts[..i + 1] == ts[..i] + [ts[i]];
    OneMoreToken(ts[..i], ts[i]);
    if i < n {
      BytesAt(ts[..n], i);
      assert ts[..n][..i] == ts[..i] && ts[..n][..i + 1] == ts[..i + 1];
      assert ts == ts[..n] + [ts[n]];
      OneMoreToken(ts[..n], ts[n]);
    } else {
      assert ts[..i + 1] == ts;
    }
  }

  method PutPacked(w: BitWriter, packed: array<Byte>, num: nat, lens: seq<nat>, codes: seq<nat>, ghost ts: seq<Token>)
    requires w.Valid() && CodesOf(lens, codes) && TokensUsable(ts, lens)
    requires num <= packed.Length && packed[..num] == Bytes(ts)
    modifies w`out, w`bitBuffer, w`bitsIn, w`fields
    ensures w.Valid() && w.fields == old(w.fields) + PackedFields(ts, lens)
  {
    hide BitWriter.Valid, CodesOf, TokenFields, TokenBytes;
    var index: nat := 0;
    ghost var i: nat := 0;
    assert ts[0..] == ts && ts[..0] == [];
    while index < num
      invariant i <= |ts| && index == |Bytes(ts[..i])| && w.Valid()
      invariant w.fields + PackedFields(ts[i..], lens) == old(w.fields) + PackedFields(ts, lens)
      decreases |ts| - i
    {
      MorePacked(ts, i);
      BytesAt(ts, i);
      assert ts[i..][1..] == ts[i + 1..];
      index := PutToken(w, packed, num, index, lens, codes, ts[i]);
      i := i + 1;
    }
    MorePacked(ts, i);
    assert ts[i..] == [];
  }

  lemma {:induction false} MorePacked(ts: seq<Token>, i: nat)
    requires i <= |ts|
    ensures |Bytes(ts[..i])| < |Bytes(ts)| <==> i < |ts|
  {
    if i < |ts| {
      BytesAt(ts, i);
    } else {
      assert ts[..i] == ts;
    }
  }

  method PutToken(w: BitWriter, packed: array<Byte>, num: nat, index: nat, lens: seq<nat>, codes: seq<nat>, ghost t: Token)
    returns (index': nat)
    requires w.Valid() && CodesOf(lens, codes) && TokenOk(t) && HasCode(lens, TokenSym(t))
    requires index + |TokenBytes(t)| <= num <= packed.Length
    requires packed[..num][index..index + |TokenBytes(t)|] == TokenBytes(t)
    modifies w`out, w`bitBuffer, w`bitsIn, w`fields
    ensures w.Valid() && w.fields == old(w.fields) + TokenFields(t, lens)
    ensures index' == index + |TokenBytes(t)|
  {
    hide BitWriter.Valid, CodesOf, HuffField, HasCode, Pow2;
    SmallPowers();
    ghost var bytes := packed[..num][index..index + |TokenBytes(t)|];
    assert bytes[0] == packed[index];
    var code := packed[index];
    PutSymbol(w, lens, codes, code);
    index' := index + 1;
    if code >= 16 {
      assert bytes[1] == packed[index'];
      w.PutBits(packed[index'], ExtraBits(code));
      index' := index' + 1;
    }
  }
}
