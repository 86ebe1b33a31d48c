/** The body of a compressed block: the LZ codes as Huffman codes with extra bits. */
module DeflateCodes {
  import opened Powers
  import opened LzCodes
  import opened LzCodeBuffer
  import opened LzBuffers
  import opened DeflateSymbols
  import opened BitStream
  import opened CanonicalCode
  import opened HuffmanTable

  const END_OF_BLOCK := 256

  /** The symbol's code, as it is transmitted. */
  ghost function HuffField(sizes: seq<nat>, s: nat): Field
    requires s < |sizes|
  {
    Field(Transmitted(sizes, s), sizes[s])
  }

  ghost predicate HasCode(sizes: seq<nat>, s: nat) {
    s < |sizes| && 0 < sizes[s] <= 15
  }

  /** Both tables have codes for what the LZ code needs. */
  ghost predicate Usable(c: Code, lit: seq<nat>, dist: seq<nat>) {
    && Expressible(c) && HasCode(lit, LitSymOf(c))
    && (c.Match? ==> HasCode(dist, DistSym(c.dist - 1)))
  }

  ghost predicate AllUsable(cs: seq<Code>, lit: seq<nat>, dist: seq<nat>) {
    forall i | 0 <= i < |cs| :: Usable(cs[i], lit, dist)
  }

  ghost function LengthExtraField(len: nat): Field
    requires MIN_MATCH_LEN <= len <= MAX_MATCH_LEN
  {
    var l := len - MIN_MATCH_LEN;
    Field(l % Pow2(LenExtra(l)), LenExtra(l))
  }

  ghost function DistExtraField(dist: nat): Field
    requires 1 <= dist <= LZ_DICT_SIZE
  {
    var d := dist - 1;
    Field(d % Pow2(DistExtra(d)), DistExtra(d))
  }

  ghost function CodeFields(c: Code, lit: seq<nat>, dist: seq<nat>): seq<Field>
    requires Usable(c, lit, dist)
  {
    if c.Literal? then [HuffField(lit, c.value)]
    else [HuffField(lit, LitSymOf(c)), LengthExtraField(c.len), HuffField(dist, DistSym(c.dist - 1)), DistExtraField(c.dist)]
  }

  ghost function BodyFields(cs: seq<Code>, lit: seq<nat>, dist: seq<nat>): seq<Field>
    requires AllUsable(cs, lit, dist)
  {
    if cs == [] then [] else BodyFields(cs[..|cs| - 1], lit, dist) + CodeFields(cs[|cs| - 1], lit, dist)
  }

  lemma {:induction false} BodyOne(cs: seq<Code>, i: nat, lit: seq<nat>, dist: seq<nat>)
    requires AllUsable(cs, lit, dist) && i < |cs|
    ensures BodyFields(cs[..i + 1], lit, dist) == BodyFields(cs[..i], lit, dist) + CodeFields(cs[i], lit, dist)
  {
    assert cs[..i + 1][..i] == cs[..i];
  }

  lemma {:induction false} BodyLast(cs: seq<Code>, c: Code, lit: seq<nat>, dist: seq<nat>)
    requires AllUsable(cs + [c], lit, dist)
    ensures AllUsable(cs, lit, dist) && Usable(c, lit, dist)
    ensures BodyFields(cs + [c], lit, dist) == BodyFields(cs, lit, dist) + CodeFields(c, lit, dist)
  {
    assert (cs + [c])[|cs|] == c;
    assert forall i | 0 <= i < |cs| :: cs[i] == (cs + [c])[i];
    assert (cs + [c])[..|cs|] == cs;
  }

  /** The fields begin with those of the first code. */
  lemma {:induction false} BodyFront(c: Code, cs: seq<Code>, lit: seq<nat>, dist: seq<nat>)
    requires AllUsable([c] + cs, lit, dist)
    ensures AllUsable(cs, lit, dist) && Usable(c, lit, dist)
    ensures BodyFields([c] + cs, lit, dist) == CodeFields(c, lit, dist) + BodyFields(cs, lit, dist)
    decreases |cs|
  {
    hide *;
    if cs == [] {
      assert [c] + cs == [] + [c];
      BodyLast([], c, lit, dist);
      NoBody(lit, dist);
    } else {
      var front, last := cs[..|cs| - 1], cs[|cs| - 1];
      assert [c] + cs == [c] + front + [last] && cs == front + [last];
      BodyLast([c] + front, last, lit, dist);
      BodyFront(c, front, lit, dist);
      UsableAppend(front, last, lit, dist);
      BodyLast(front, last, lit, dist);
    }
  }

  lemma {:induction false} UsableAppend(cs: seq<Code>, c: Code, lit: seq<nat>, dist: seq<nat>)
    requires AllUsable(cs, lit, dist) && Usable(c, lit, dist)
    ensures AllUsable(cs + [c], lit, dist)
  {
  }

  lemma {:induction false} NoBody(lit: seq<nat>, dist: seq<nat>)
    ensures AllUsable([], lit, dist) && BodyFields([], lit, dist) == []
  {
  }

  // ---------------------------------------------------------------- writing

  /** The codes the encoder holds are the canonical ones. */
  ghost predicate CodesOf(sizes: seq<nat>, codes: seq<nat>) {
    |codes| == |sizes| && forall s | 0 <= s < |sizes| && sizes[s] > 0 :: codes[s] == Transmitted(sizes, s)
  }

  method PutSymbol(w: BitWriter, sizes: seq<nat>, codes: seq<nat>, s: nat)
    requires w.Valid() && CodesOf(sizes, codes) && HasCode(sizes, s)
    modifies w`out, w`bitBuffer, w`bitsIn, w`fields
    ensures w.Valid() && w.fields == old(w.fields) + [HuffField(sizes, s)]
  {
    TransmittedFits(sizes, s);
    hide BitWriter.Valid, Transmitted, Pow2;
    w.PutBits(codes[s], sizes[s]);
  }

  method PutMatch(w: BitWriter, lit: seq<nat>, litCodes: seq<nat>, dist: seq<nat>, distCodes: seq<nat>,
                  matchLen: nat, matchDist: nat, ghost c: Code)
    requires w.Valid() && CodesOf(lit, litCodes) && CodesOf(dist, distCodes) && Usable(c, lit, dist)
    requires c.Match? && matchLen == c.len - MIN_MATCH_LEN && matchDist == c.dist - 1
    modifies w`out, w`bitBuffer, w`bitsIn, w`fields
    ensures w.Valid() && w.fields == old(w.fields) + CodeFields(c, lit, dist)
  {
    hide BitWriter.Valid, CodesOf, HuffField, Pow2, LenExtra, DistExtra, LenSym, DistSym;
    PutSymbol(w, lit, litCodes, LenSym(matchLen));
    w.PutBits(matchLen % Pow2(LenExtra(matchLen)), LenExtra(matchLen));
    PutSymbol(w, dist, distCodes, DistSym(matchDist));
    w.PutBits(matchDist % Pow2(DistExtra(matchDist)), DistExtra(matchDist));
  }

  /** Writes the recorded codes and the end of the block; `ok` unless the output is full. */
  method CompressLzCodes(w: BitWriter, codeBuf: array<Byte>, end: nat, lit: seq<nat>, litCodes: seq<nat>,
                         dist: seq<nat>, distCodes: seq<nat>, ghost cs: seq<Code>) returns (ok: bool)
    requires w.Valid() && CodesOf(lit, litCodes) && CodesOf(dist, distCodes)
    requires AllExpressible(cs) && end <= codeBuf.Length && codeBuf[..end] == Serialized(cs)
    requires AllUsable(cs, lit, dist) && HasCode(lit, END_OF_BLOCK)
    modifies w`out, w`bitBuffer, w`bitsIn, w`fields
    ensures w.Valid() && w.fields == old(w.fields) + BodyFields(cs, lit, dist) + [HuffField(lit, END_OF_BLOCK)]
    ensures ok <==> |w.out| < w.limit
  {
    hide BitWriter.Valid, CodesOf, HuffField, CodeFields, BodyFields, Serialized, Reading, Loaded, HasCode;
    ghost var buf: seq<int>, i: nat, full: nat := codeBuf[..end], 0, 0;
    var pos: nat, flags: nat := 0, 1;
    StartReading(buf, cs);
    NoBody(lit, dist);
    assert cs[..0] == [];
    while pos < end
      invariant pos <= end && Reading(buf, cs, i, full, pos, flags) && w.Valid() && i <= |cs|
      invariant w.fields == old(w.fields) + BodyFields(cs[..i], lit, dist)
      decreases |cs| - i
    {
      ReadingEnd(buf, cs, i, full, pos, flags);
      LoadFlags(buf, cs, i, full, pos, flags);
      if flags == 1 {
        flags := codeBuf[pos] as int + 0x100;
        pos := pos + 1;
      }
      NextFlag(buf, cs, i, full, pos, flags);
      NextItem(buf, cs, i, full, pos, flags);
      AfterCode(buf, cs, i, full, pos, flags);
      BodyOne(cs, i, lit, dist);
      pos := PutCode(w, codeBuf, end, pos, flags % 2 == 1, lit, litCodes, dist, distCodes, cs[i]);
      flags := flags / 2;
      full, i := if i + 1 == full + 8 then full + 8 else full, i + 1;
    }
    ReadingEnd(buf, cs, i, full, pos, flags);
    assert cs[..i] == cs;
    PutSymbol(w, lit, litCodes, END_OF_BLOCK);
    ok := |w.out| < w.limit;
  }

  /** Writes the code whose bytes stand at `pos`. */
  method PutCode(w: BitWriter, codeBuf: array<Byte>, end: nat, pos: nat, isMatch: bool, lit: seq<nat>, litCodes: seq<nat>,
                 dist: seq<nat>, distCodes: seq<nat>, ghost c: Code) returns (pos': nat)
    requires w.Valid() && CodesOf(lit, litCodes) && CodesOf(dist, distCodes) && Usable(c, lit, dist)
    requires end <= codeBuf.Length && pos + |Item(c)| <= end && codeBuf[..end][pos..pos + |Item(c)|] == Item(c)
    requires isMatch == c.Match?
    modifies w`out, w`bitBuffer, w`bitsIn, w`fields
    ensures w.Valid() && w.fields == old(w.fields) + CodeFields(c, lit, dist)
    ensures pos' == pos + |Item(c)|
  {
    hide BitWriter.Valid, CodesOf, HuffField, HasCode, LenSym, DistSym;
    ghost var item := codeBuf[..end][pos..pos + |Item(c)|];
    assert item[0] == codeBuf[pos];
    if isMatch {
      assert item[1] == codeBuf[pos + 1] && item[2] == codeBuf[pos + 2];
      PutMatch(w, lit, litCodes, dist, distCodes, codeBuf[pos], codeBuf[pos + 1] as int + 256 * (codeBuf[pos + 2] as int), c);
      pos' := pos + 3;
    } else {
      PutSymbol(w, lit, litCodes, codeBuf[pos]);
      pos' := pos + 1;
    }
  }

  lemma {:induction false} StartReading(buf: seq<int>, cs: seq<Code>)
    requires AllExpressible(cs) && buf == Serialized(cs)
    ensures Reading(buf, cs, 0, 0, 0, 1)
  {
    assert cs[..0] == [];
  }
}
