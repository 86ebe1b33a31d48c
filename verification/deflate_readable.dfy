/** What the compressor writes is in the grammar. */
module DeflateReadable {
  import opened Powers
  import opened LzCodes
  import opened BitStream
  import opened DeflateSymbols
  import opened DeflateCodes
  import opened DeflateHeader
  import opened DeflateBlock
  import opened DeflateStream
  import opened DeflateFormat

  // ---------------------------------------------------------------- codes

  ghost function EntryOf(c: Code): Entry
    requires Expressible(c)
  {
    match c
    case Literal(b) => Plain(b)
    case Match(len, dist) =>
      Back(LenSym(len - MIN_MATCH_LEN), LengthExtraField(len).value, DistSym(dist - 1), DistExtraField(dist).value)
  }

  lemma {:induction false} EntrySpells(c: Code, lit: seq<nat>, dist: seq<nat>)
    requires Usable(c, lit, dist)
    ensures EntryOk(EntryOf(c), lit, dist) && EntryFields(EntryOf(c), lit, dist) == CodeFields(c, lit, dist)
    ensures Meant(EntryOf(c), lit, dist) == c
  {
    hide HuffField, LenSym, DistSym, LenExtra, DistExtra, Pow2, LengthBase, DistBase, LengthExtraBits, DistExtraBits;
    if c.Match? {
      LengthRoundTrip(c.len - MIN_MATCH_LEN);
      DistRoundTrip(c.dist - 1);
    }
  }

  ghost function EntriesOf(cs: seq<Code>): (es: seq<Entry>)
    requires AllExpressible(cs)
    ensures |es| == |cs|
  {
    seq(|cs|, i requires 0 <= i < |cs| => EntryOf(cs[i]))
  }

  lemma {:induction false} ExpandFront(out: seq<Byte>, c: Code, cs: seq<Code>)
    ensures Expand(out, [c] + cs) == Expand(Apply(out, c), cs)
    ensures Decodable(out, [c] + cs) <==> Applicable(out, c) && Decodable(Apply(out, c), cs)
    decreases |cs|
  {
    hide Apply, Applicable;
    if cs == [] {
      assert [c] + cs == [] + [c];
      ExpandOne(out, [], c);
    } else {
      var front, last := cs[..|cs| - 1], cs[|cs| - 1];
      ExpandFront(out, c, front);
      assert [c] + cs == [c] + front + [last] && cs == front + [last];
      ExpandOne(out, [c] + front, last);
      ExpandOne(Apply(out, c), front, last);
    }
  }

  lemma {:induction false} EntriesSpell(cs: seq<Code>, lit: seq<nat>, dist: seq<nat>, out: seq<Byte>)
    requires AllExpressible(cs) && AllUsable(cs, lit, dist) && HasCode(lit, END_OF_BLOCK)
    ensures EntriesOk(EntriesOf(cs), lit, dist)
    ensures EntriesFields(EntriesOf(cs), lit, dist) == CodesAndEnd(cs, lit, dist)
    ensures Sensible(EntriesOf(cs), lit, dist, out) == Decodable(out, cs)
    ensures Yield(EntriesOf(cs), lit, dist, out) == Expand(out, cs)
    decreases |cs|
  {
    hide EntryOk, EntryFields, Meant, EntryOf, CodeFields, BodyFields, HuffField, HasCode, Usable, Apply, Applicable, Expressible;
    if cs == [] {
      NoBody(lit, dist);
    } else {
      var c, rest := cs[0], cs[1..];
      assert cs == [c] + rest;
      BodyFront(c, rest, lit, dist);
      EntrySpells(c, lit, dist);
      EntriesSpell(rest, lit, dist, Apply(out, c));
      ExpandFront(out, c, rest);
      assert EntriesOf(cs)[1..] == EntriesOf(rest);
      assert forall i | 0 < i < |cs| :: EntriesOf(cs)[i] == EntriesOf(rest)[i - 1];
      assert CodesAndEnd(cs, lit, dist) == CodeFields(c, lit, dist) + CodesAndEnd(rest, lit, dist);
    }
  }

  // ---------------------------------------------------------------- blocks

  lemma {:induction false} UsableExpressible(cs: seq<Code>, lit: seq<nat>, dist: seq<nat>)
    requires AllUsable(cs, lit, dist)
    ensures AllExpressible(cs)
  {
    assert forall i | 0 <= i < |cs| :: Usable(cs[i], lit, dist);
  }

  /** A block body as the compressor writes it is one of the grammar. */
  lemma {:induction false} BodySpells(fs: seq<Field>, block: Block, at: nat, out: seq<Byte>) returns (b: RawBlock)
    requires BlockBody(fs, block, at)
    ensures BlockOk(b) && fs == [Field(Kind(b), 2)] + InnerFields(b, at + 2)
    ensures SensibleBlock(b, out) == DecodableBlock(out, block) && BlockYield(b, out) == ExpandBlock(out, block)
  {
    hide HeaderOk, HeaderFields, EntriesFields, EntriesOk, CodesAndEnd, AllUsable, StaticLit, StaticDist, Sensible, Yield,
      Decodable, Expand, ByteFields, Missing;
    match block
    case Stored(bytes) =>
      b := Raw(bytes, 0);
    case Coded(cs) =>
      if StaticBlock(fs, cs) {
        UsableExpressible(cs, StaticLit(), StaticDist());
        EntriesSpell(cs, StaticLit(), StaticDist(), out);
        b := Fixed(EntriesOf(cs));
      } else {
        var h :| DynamicBlock(fs, cs, h);
        UsableExpressible(cs, h.lit, h.dist);
        EntriesSpell(cs, h.lit, h.dist, out);
        b := Custom(h, EntriesOf(cs));
      }
  }

  lemma {:induction false} BlockSpells(fs: seq<Field>, final: bool, block: Block, at: nat, out: seq<Byte>) returns (b: RawBlock)
    requires BlockAt(fs, final, block, at)
    ensures BlockOk(b) && fs == BlockFields(b, final, at)
    ensures SensibleBlock(b, out) == DecodableBlock(out, block) && BlockYield(b, out) == ExpandBlock(out, block)
  {
    hide BlockBody, BlockOk, InnerFields, SensibleBlock, BlockYield, DecodableBlock, ExpandBlock;
    b := BodySpells(fs[1..], block, at + 1, out);
    assert fs == [fs[0]] + fs[1..];
  }

  // ---------------------------------------------------------------- streams

  /** The parts from `i` on begin with part `i`. */
  lemma {:induction false} PartAhead(parts: seq<seq<Field>>, i: nat)
    requires i < |parts|
    ensures Flatten(parts[i..]) == parts[i] + Flatten(parts[i + 1..])
    ensures Width(Flatten(parts[..i + 1])) == Width(Flatten(parts[..i])) + Width(parts[i])
  {
    assert parts[i..] == [parts[i]] + parts[i + 1..];
    FlattenFront(parts[i], parts[i + 1..]);
    assert parts[..i + 1] == parts[..i] + [parts[i]];
    FlattenOne(parts[..i], parts[i]);
    WidthConcat(Flatten(parts[..i]), parts[i]);
  }

  lemma {:induction false} NextPart(parts: seq<seq<Field>>, blocks: seq<Block>, i: nat)
    requires Stream(parts, blocks, true) && i < |parts|
    ensures |parts| == |blocks| && BlockAt(parts[i], i == |parts| - 1, blocks[i], Width(Flatten(parts[..i])))
  {
    hide BlockAt;
  }

  lemma {:induction false} DecodableBlocksPrefix(blocks: seq<Block>, i: nat)
    requires DecodableBlocks(blocks) && i <= |blocks|
    ensures DecodableBlocks(blocks[..i])
    decreases |blocks|
  {
    if i < |blocks| {
      DecodableBlocksPrefix(blocks[..|blocks| - 1], i);
      assert blocks[..|blocks| - 1][..i] == blocks[..i];
    } else {
      assert blocks[..i] == blocks;
    }
  }

  /** The blocks of a stream from block `i` on. */
  lemma {:induction false} StreamSpells(parts: seq<seq<Field>>, blocks: seq<Block>, i: nat) returns (bs: seq<RawBlock>)
    requires Stream(parts, blocks, true) && i < |parts| && DecodableBlocks(blocks)
    ensures BlocksOk(bs) && StreamFields(bs, Width(Flatten(parts[..i]))) == Flatten(parts[i..])
    ensures i < |blocks| && SensibleBlocks(bs, ExpandBlocks(blocks[..i]))
    ensures StreamYield(bs, ExpandBlocks(blocks[..i])) == ExpandBlocks(blocks)
    decreases |parts| - i
  {
    hide Stream, BlockAt, BlockOk, BlockFields, SensibleBlock, BlockYield, Flatten, Width, DecodableBlocks, ExpandBlocks,
      DecodableBlock, ExpandBlock;
    NextPart(parts, blocks, i);
    PartAhead(parts, i);
    var out := ExpandBlocks(blocks[..i]);
    var b := BlockSpells(parts[i], i == |parts| - 1, blocks[i], Width(Flatten(parts[..i])), out);
    DecodableBlocksPrefix(blocks, i + 1);
    assert blocks[..i + 1] == blocks[..i] + [blocks[i]];
    OneMoreBlock(blocks[..i], blocks[i]);
    if i == |parts| - 1 {
      assert blocks[..i + 1] == blocks && parts[i + 1..] == [];
      NothingFlattened(parts[i]);
      bs := [b];
    } else {
      bs := StreamSpells(parts, blocks, i + 1);
      assert ([b] + bs)[1..] == bs;
      bs := [b] + bs;
    }
  }

  lemma NothingFlattened(part: seq<Field>)
    ensures part + Flatten([]) == part
  {
  }

  /** Every deflate stream of the compressor is in the grammar. */
  lemma {:induction false} DeflatedReadable(bytes: seq<Byte>, data: seq<Byte>)
    requires Deflated(bytes, data)
    ensures Readable(bytes, data)
  {
    hide Stream, DecodableBlocks, ExpandBlocks, Flatten, Packed, Width, FieldsOk, Number, BlocksOk, StreamFields, SensibleBlocks,
      StreamYield, Pow2, Missing;
    var parts: seq<seq<Field>>, blocks: seq<Block> :| DeflatedAs(bytes, data, parts, blocks);
    SomeParts(parts, blocks);
    var bs := StreamSpells(parts, blocks, 0);
    assert parts[..0] == [] && parts[0..] == parts && blocks[..0] == [];
    NoBlocks();
    assert ReadableAs(bytes, data, bs, Source(0, Width(Flatten(parts)), 8 * |bytes|));
  }

  lemma SomeParts(parts: seq<seq<Field>>, blocks: seq<Block>)
    requires Stream(parts, blocks, true)
    ensures |parts| > 0
  {
  }

  lemma {:induction false} NoBlocks()
    ensures ExpandBlocks([]) == [] && Width(Flatten([])) == 0
  {
  }
}
