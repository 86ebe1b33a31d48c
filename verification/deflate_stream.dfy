/** Streams of blocks: what each block stands for, how it lies in the stream, and stored blocks. */
module DeflateStream {
  import opened Powers
  import opened LzCodes
  import opened LzCodeBuffer
  import opened LzBuffers
  import opened BitStream
  import opened DeflateSymbols
  import opened DeflateCodes
  import opened DeflateBlock

  /** A finished block: LZ codes, or the bytes themselves. */
  datatype Block = Coded(codes: seq<Code>) | Stored(bytes: seq<Byte>)

  ghost function ExpandBlock(out: seq<Byte>, block: Block): seq<Byte> {
    match block
    case Coded(codes) => Expand(out, codes)
    case Stored(bytes) => out + bytes
  }

  ghost predicate DecodableBlock(out: seq<Byte>, block: Block) {
    block.Coded? ==> Decodable(out, block.codes)
  }

  /** All blocks, expanded one after another. */
  ghost function ExpandBlocks(blocks: seq<Block>): seq<Byte> {
    if blocks == [] then [] else ExpandBlock(ExpandBlocks(blocks[..|blocks| - 1]), blocks[|blocks| - 1])
  }

  ghost predicate DecodableBlocks(blocks: seq<Block>) {
    blocks == []
    || (DecodableBlocks(blocks[..|blocks| - 1]) && DecodableBlock(ExpandBlocks(blocks[..|blocks| - 1]), blocks[|blocks| - 1]))
  }

  lemma {:induction false} OneMoreBlock(blocks: seq<Block>, block: Block)
    ensures ExpandBlocks(blocks + [block]) == ExpandBlock(ExpandBlocks(blocks), block)
    ensures DecodableBlocks(blocks + [block]) <==> DecodableBlocks(blocks) && DecodableBlock(ExpandBlocks(blocks), block)
  {
    assert (blocks + [block])[..|blocks|] == blocks;
  }

  // ---------------------------------------------------------------- the fields of a block

  /** How many bits are missing to the next whole byte. */
  function Missing(at: nat): (n: nat)
    ensures n < 8 && (at + n) % 8 == 0
  {
    (8 - at % 8) % 8
  }

  /** The padding of a stream that is `at` bits long. */
  ghost function Padding(at: nat): seq<Field> {
    if Missing(at) > 0 then [Field(0, Missing(at))] else []
  }

  ghost function ByteFields(bytes: seq<Byte>): seq<Field> {
    if bytes == [] then [] else [Field(bytes[0], 8)] + ByteFields(bytes[1..])
  }

  /** A stored block from its type on, which stands at bit `at`. */
  ghost function StoredFields(bytes: seq<Byte>, at: nat): seq<Field>
    requires |bytes| < 0x10000
  {
    [Field(0, 2)] + (Padding(at + 2) + ([Field(|bytes|, 16)] + ([Field(0xFFFF - |bytes|, 16)] + ByteFields(bytes))))
  }

  /** The fields of a block after its first bit, at bit `at`. */
  ghost predicate BlockBody(fs: seq<Field>, block: Block, at: nat) {
    match block
    case Coded(codes) => CompressedBlock(fs, codes)
    case Stored(bytes) => |bytes| < 0x10000 && fs == StoredFields(bytes, at)
  }

  ghost predicate BlockAt(fs: seq<Field>, final: bool, block: Block, at: nat) {
    |fs| > 0 && fs[0] == Field(if final then 1 else 0, 1) && BlockBody(fs[1..], block, at + 1)
  }

  ghost function Flatten(parts: seq<seq<Field>>): seq<Field> {
    if parts == [] then [] else Flatten(parts[..|parts| - 1]) + parts[|parts| - 1]
  }

  /** One part for every block; only the last may be final. */
  ghost predicate Stream(parts: seq<seq<Field>>, blocks: seq<Block>, finished: bool) {
    && |parts| == |blocks| && (finished ==> |parts| > 0)
    && forall i | 0 <= i < |parts| ::
         BlockAt(parts[i], finished && i == |parts| - 1, blocks[i], Width(Flatten(parts[..i])))
  }

  lemma {:induction false} FlattenOne(parts: seq<seq<Field>>, part: seq<Field>)
    ensures Flatten(parts + [part]) == Flatten(parts) + part
  {
    assert (parts + [part])[..|parts|] == parts;
  }

  lemma {:induction false} FlattenFront(part: seq<Field>, parts: seq<seq<Field>>)
    ensures Flatten([part] + parts) == part + Flatten(parts)
    decreases |parts|
  {
    if parts == [] {
      assert [part] + parts == [] + [part];
      FlattenOne([], part);
    } else {
      var front, last := parts[..|parts| - 1], parts[|parts| - 1];
      FlattenFront(part, front);
      assert [part] + parts == [part] + front + [last] && parts == front + [last];
      FlattenOne([part] + front, last);
    }
  }

  /** Another block goes to the end of an unfinished stream. */
  lemma {:induction false} StreamOne(parts: seq<seq<Field>>, blocks: seq<Block>, part: seq<Field>, block: Block, final: bool)
    requires Stream(parts, blocks, false) && BlockAt(part, final, block, Width(Flatten(parts)))
    ensures Stream(parts + [part], blocks + [block], final)
    ensures Flatten(parts + [part]) == Flatten(parts) + part
  {
    FlattenOne(parts, part);
    hide BlockAt, Flatten, Width;
    var parts', blocks' := parts + [part], blocks + [block];
    forall i | 0 <= i < |parts'|
      ensures BlockAt(parts'[i], final && i == |parts'| - 1, blocks'[i], Width(Flatten(parts'[..i])))
    {
      if i < |parts| {
        assert parts'[..i] == parts[..i];
      } else {
        assert parts'[..i] == parts;
      }
    }
  }

  /** The bytes are a finished deflate stream whose blocks expand to `data`. */
  ghost predicate Deflated(bytes: seq<Byte>, data: seq<Byte>) {
    exists parts: seq<seq<Field>>, blocks: seq<Block> :: DeflatedAs(bytes, data, parts, blocks)
  }

  ghost predicate DeflatedAs(bytes: seq<Byte>, data: seq<Byte>, parts: seq<seq<Field>>, blocks: seq<Block>) {
    && Stream(parts, blocks, true) && FieldsOk(Flatten(parts)) && Number(bytes) == Packed(Flatten(parts))
    && 8 * |bytes| == Width(Flatten(parts)) + Missing(Width(Flatten(parts)))
    && DecodableBlocks(blocks) && ExpandBlocks(blocks) == data
  }

  // ---------------------------------------------------------------- writing

  /** Fills the bit buffer up to a whole byte. */
  method Align(w: BitWriter)
    requires w.Valid()
    modifies w`out, w`bitBuffer, w`bitsIn, w`fields
    ensures w.Valid() && w.fields == old(w.fields) + Padding(Width(old(w.fields)))
    ensures w.bitsIn == 0
  {
    hide Width, Pow2, Number, Packed, FieldsOk;
    if w.bitsIn > 0 {
      AtLeastOnePower(8 - w.bitsIn);
      OneMoreField(w.fields, Field(0, 8 - w.bitsIn));
      w.PutBits(0, 8 - w.bitsIn);
    }
  }

  lemma {:induction false} AtLeastOnePower(n: nat)
    ensures 0 < Pow2(n)
  {
  }

  method PutBytes(w: BitWriter, bytes: seq<Byte>)
    requires w.Valid()
    modifies w`out, w`bitBuffer, w`bitsIn, w`fields
    ensures w.Valid() && w.fields == old(w.fields) + ByteFields(bytes)
  {
    hide BitWriter.Valid, Pow2;
    SmallPowers();
    var i := 0;
    assert bytes[0..] == bytes;
    while i < |bytes|
      invariant 0 <= i <= |bytes| && w.Valid()
      invariant w.fields + ByteFields(bytes[i..]) == old(w.fields) + ByteFields(bytes)
    {
      assert bytes[i..][1..] == bytes[i + 1..];
      w.PutBits(bytes[i], 8);
      i := i + 1;
    }
  }

  /** Writes a stored block, from its type on. */
  method PutStored(w: BitWriter, bytes: seq<Byte>)
    requires w.Valid() && |bytes| < 0x10000
    modifies w`out, w`bitBuffer, w`bitsIn, w`fields
    ensures w.Valid() && w.fields == old(w.fields) + StoredFields(bytes, Width(old(w.fields)))
  {
    hide BitWriter.Valid, Pow2, Width, Padding, ByteFields;
    SmallPowers();
    Sixteen();
    OneMoreField(w.fields, Field(0, 2));
    w.PutBits(0, 2);
    Align(w);
    w.PutBits(|bytes|, 16);
    w.PutBits(0xFFFF - |bytes|, 16);
    PutBytes(w, bytes);
  }

  lemma {:induction false} Sixteen()
    ensures Pow2(16) == 0x10000
  {
    Pow2Values();
  }

  // ---------------------------------------------------------------- the size of a block

  const OUT_BUF_SIZE := CODE_BUF_SIZE * 13 / 10

  lemma {:induction false} WidthConcat(fs: seq<Field>, gs: seq<Field>)
    ensures Width(fs + gs) == Width(fs) + Width(gs)
  {
    Concat(fs, gs);
  }

  lemma {:induction false} WidthOne(f: Field)
    ensures Width([f]) == f.width
  {
    OneField(f);
  }

  /** A match takes at most 31 bits for its three bytes in the code buffer, a literal 9 bits for its one byte. */
  lemma {:induction false} StaticCodeWidth(c: Code)
    requires Usable(c, StaticLit(), StaticDist())
    ensures 3 * Width(CodeFields(c, StaticLit(), StaticDist())) <= 31 * |Item(c)|
  {
    var lit, dist := StaticLit(), StaticDist();
    if c.Literal? {
      WidthOne(HuffField(lit, c.value));
    } else {
      var a, b, f, g := HuffField(lit, LitSymOf(c)), LengthExtraField(c.len), HuffField(dist, DistSym(c.dist - 1)), DistExtraField(c.dist);
      assert CodeFields(c, lit, dist) == [a] + [b] + [f] + [g];
      hide Width, CodeFields, LenSym, DistSym;
      WidthOne(a);
      WidthOne(b);
      WidthOne(f);
      WidthOne(g);
      WidthConcat([a], [b]);
      WidthConcat([a] + [b], [f]);
      WidthConcat([a] + [b] + [f], [g]);
      LengthWidth(c.len - MIN_MATCH_LEN);
    }
  }

  /** Long codes have few extra bits. */
  lemma {:induction false} LengthWidth(l: nat)
    requires l < 256
    ensures StaticLit()[LenSym(l)] + LenExtra(l) <= 13
  {
  }

  lemma {:induction false} StaticBodyWidth(cs: seq<Code>)
    requires AllExpressible(cs) && AllUsable(cs, StaticLit(), StaticDist())
    ensures 3 * Width(BodyFields(cs, StaticLit(), StaticDist())) <= 31 * |Items(cs)|
  {
    if cs != [] {
      var front, c := cs[..|cs| - 1], cs[|cs| - 1];
      StaticBodyWidth(front);
      StaticCodeWidth(c);
      hide Width, CodeFields, StaticLit, StaticDist;
      WidthConcat(BodyFields(front, StaticLit(), StaticDist()), CodeFields(c, StaticLit(), StaticDist()));
    }
  }

  /** A static block of any full code buffer fits the output buffer with room to spare. */
  lemma {:induction false} StaticFits(fs: seq<Field>, cs: seq<Code>)
    requires StaticBlock(fs, cs) && AllExpressible(cs) && |Serialized(cs)| <= CODE_BUF_SIZE
    ensures Width(fs) + 64 <= 8 * (OUT_BUF_SIZE - 16)
  {
    StaticBodyWidth(cs);
    ItemsAndFlags(cs);
    var lit, dist := StaticLit(), StaticDist();
    var body, end := BodyFields(cs, lit, dist), [HuffField(lit, END_OF_BLOCK)];
    assert fs == [Field(1, 2)] + (body + end);
    hide Width, Items, Serialized, StaticBlock;
    WidthConcat([Field(1, 2)], body + end);
    WidthConcat(body, end);
    WidthOne(Field(1, 2));
    WidthOne(HuffField(lit, END_OF_BLOCK));
  }

  lemma {:induction false} ByteWidth(bytes: seq<Byte>)
    ensures Width(ByteFields(bytes)) == 8 * |bytes|
  {
    if bytes != [] {
      ByteWidth(bytes[1..]);
      WidthConcat([Field(bytes[0], 8)], ByteFields(bytes[1..]));
      WidthOne(Field(bytes[0], 8));
    }
  }

  /** So does a stored block of bytes that are still in the dictionary. */
  lemma {:induction false} StoredWidth(bytes: seq<Byte>, at: nat)
    requires |bytes| < 0x10000
    ensures Width(StoredFields(bytes, at)) <= 41 + 8 * |bytes|
  {
    var a, b, c := Field(0, 2), Field(|bytes|, 16), Field(0xFFFF - |bytes|, 16);
    ByteWidth(bytes);
    PaddingWidth(at + 2);
    WidthOne(a);
    WidthOne(b);
    WidthOne(c);
    hide Width, Padding, ByteFields;
    var tail := [b] + ([c] + ByteFields(bytes));
    WidthConcat([a], Padding(at + 2) + tail);
    WidthConcat(Padding(at + 2), tail);
    WidthConcat([b], [c] + ByteFields(bytes));
    WidthConcat([c], ByteFields(bytes));
  }

  lemma {:induction false} PaddingWidth(at: nat)
    ensures Width(Padding(at)) == Missing(at)
  {
    if Missing(at) > 0 {
      WidthOne(Field(0, Missing(at)));
    }
  }
}
