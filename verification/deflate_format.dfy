/** The grammar of deflate streams (section 3.2 of RFC 1951), by the fields they are made of. A stream may hold what the
    format allows beyond what the compressor writes: any padding, two ways to write the length 258, any header. */
module DeflateFormat {
  import opened Powers
  import opened LzCodes
  import opened BitStream
  import opened DeflateSymbols
  import opened DeflateCodes
  import opened DeflateHeader
  import opened DeflateBlock
  import opened DeflateStream

  // ---------------------------------------------------------------- the codes of a block

  /** A literal, or a match by its two symbols and their extra bits. */
  datatype Entry = Plain(value: Byte) | Back(lenSym: nat, lenExtra: nat, distSym: nat, distExtra: nat)

  ghost predicate EntryOk(e: Entry, lit: seq<nat>, dist: seq<nat>) {
    match e
    case Plain(b) => HasCode(lit, b)
    case Back(s, x, d, y) =>
      && 257 <= s <= 285 && HasCode(lit, s) && x < Pow2(LengthExtraBits(s))
      && d < 30 && HasCode(dist, d) && y < Pow2(DistExtraBits(d))
  }

  ghost function EntryFields(e: Entry, lit: seq<nat>, dist: seq<nat>): seq<Field>
    requires EntryOk(e, lit, dist)
  {
    match e
    case Plain(b) => [HuffField(lit, b)]
    case Back(s, x, d, y) =>
      [HuffField(lit, s)] + ([Field(x, LengthExtraBits(s))] + ([HuffField(dist, d)] + [Field(y, DistExtraBits(d))]))
  }

  ghost function Meant(e: Entry, lit: seq<nat>, dist: seq<nat>): (c: Code)
    requires EntryOk(e, lit, dist)
    ensures Expressible(c)
  {
    match e
    case Plain(b) => Literal(b)
    case Back(s, x, d, y) =>
      LengthInRange(s, x);
      DistInRange(d, y);
      Match(LengthBase(s) + x, DistBase(d) + y)
  }

  ghost predicate EntriesOk(es: seq<Entry>, lit: seq<nat>, dist: seq<nat>) {
    HasCode(lit, END_OF_BLOCK) && forall i | 0 <= i < |es| :: EntryOk(es[i], lit, dist)
  }

  /** All entries and the end of the block. */
  ghost function EntriesFields(es: seq<Entry>, lit: seq<nat>, dist: seq<nat>): seq<Field>
    requires EntriesOk(es, lit, dist)
  {
    if es == [] then [HuffField(lit, END_OF_BLOCK)]
    else EntryFields(es[0], lit, dist) + EntriesFields(es[1..], lit, dist)
  }

  /** No match reaches back before the output. */
  ghost predicate Sensible(es: seq<Entry>, lit: seq<nat>, dist: seq<nat>, out: seq<Byte>)
    requires EntriesOk(es, lit, dist)
    decreases |es|
  {
    es == [] ||
    var c := Meant(es[0], lit, dist);
    Applicable(out, c) && Sensible(es[1..], lit, dist, Apply(out, c))
  }

  ghost function Yield(es: seq<Entry>, lit: seq<nat>, dist: seq<nat>, out: seq<Byte>): seq<Byte>
    requires EntriesOk(es, lit, dist)
    decreases |es|
  {
    if es == [] then out else Yield(es[1..], lit, dist, Apply(out, Meant(es[0], lit, dist)))
  }

  // ---------------------------------------------------------------- blocks

  datatype RawBlock =
    | Raw(bytes: seq<Byte>, padding: nat)
    | Fixed(entries: seq<Entry>)
    | Custom(header: Header, entries: seq<Entry>)

  ghost predicate BlockOk(b: RawBlock) {
    match b
    case Raw(bytes, _) => |bytes| < 0x10000
    case Fixed(es) => EntriesOk(es, StaticLit(), StaticDist())
    case Custom(h, es) => HeaderOk(h) && EntriesOk(es, h.lit, h.dist)
  }

  function Kind(b: RawBlock): (k: nat)
    ensures k < 3
  {
    if b.Raw? then 0 else if b.Fixed? then 1 else 2
  }

  /** Whatever fills up the byte. */
  ghost function PaddingOf(padding: nat, at: nat): seq<Field> {
    if Missing(at) > 0 then [Field(padding, Missing(at))] else []
  }

  /** A block after its type, at bit `at`. */
  ghost function InnerFields(b: RawBlock, at: nat): seq<Field>
    requires BlockOk(b)
  {
    match b
    case Raw(bytes, padding) =>
      PaddingOf(padding, at)
      + ([Field(|bytes|, 16)] + ([Field(0xFFFF - |bytes|, 16)] + ByteFields(bytes)))
    case Fixed(es) => EntriesFields(es, StaticLit(), StaticDist())
    case Custom(h, es) => HeaderFields(h) + EntriesFields(es, h.lit, h.dist)
  }

  /** The last block is marked, and every block tells its type. */
  ghost function BlockFields(b: RawBlock, last: bool, at: nat): seq<Field>
    requires BlockOk(b)
  {
    [Field(if last then 1 else 0, 1)] + ([Field(Kind(b), 2)] + InnerFields(b, at + 3))
  }

  ghost predicate SensibleBlock(b: RawBlock, out: seq<Byte>)
    requires BlockOk(b)
  {
    match b
    case Raw(_, _) => true
    case Fixed(es) => Sensible(es, StaticLit(), StaticDist(), out)
    case Custom(h, es) => Sensible(es, h.lit, h.dist, out)
  }

  ghost function BlockYield(b: RawBlock, out: seq<Byte>): seq<Byte>
    requires BlockOk(b)
  {
    match b
    case Raw(bytes, _) => out + bytes
    case Fixed(es) => Yield(es, StaticLit(), StaticDist(), out)
    case Custom(h, es) => Yield(es, h.lit, h.dist, out)
  }

  // ---------------------------------------------------------------- streams

  ghost predicate BlocksOk(bs: seq<RawBlock>) {
    bs != [] && forall i | 0 <= i < |bs| :: BlockOk(bs[i])
  }

  ghost function StreamFields(bs: seq<RawBlock>, at: nat): seq<Field>
    requires BlocksOk(bs)
    decreases |bs|
  {
    var first := BlockFields(bs[0], |bs| == 1, at);
    if |bs| == 1 then first else first + StreamFields(bs[1..], at + Width(first))
  }

  ghost predicate SensibleBlocks(bs: seq<RawBlock>, out: seq<Byte>)
    requires BlocksOk(bs)
    decreases |bs|
  {
    SensibleBlock(bs[0], out) && (|bs| == 1 || SensibleBlocks(bs[1..], BlockYield(bs[0], out)))
  }

  ghost function StreamYield(bs: seq<RawBlock>, out: seq<Byte>): seq<Byte>
    requires BlocksOk(bs)
    decreases |bs|
  {
    if |bs| == 1 then BlockYield(bs[0], out) else StreamYield(bs[1..], BlockYield(bs[0], out))
  }

  /** The source begins with the fields, and they are all there. */
  ghost predicate Holds(src: Source, fs: seq<Field>, left: Source) {
    Begins(src, fs, left) && left.used <= left.end
  }

  /** The source begins with a block that makes sense after `out`. */
  ghost predicate BlockAhead(src: Source, b: RawBlock, last: bool, out: seq<Byte>, left: Source) {
    BlockOk(b) && SensibleBlock(b, out) && Holds(src, BlockFields(b, last, src.used), left)
  }

  /** The source begins with blocks up to the last that make sense after `out`. */
  ghost predicate BlocksAhead(src: Source, bs: seq<RawBlock>, out: seq<Byte>, left: Source) {
    BlocksOk(bs) && SensibleBlocks(bs, out) && Holds(src, StreamFields(bs, src.used), left)
  }

  /** The bytes begin with a deflate stream of `data`. */
  ghost predicate Readable(bytes: seq<Byte>, data: seq<Byte>) {
    exists bs: seq<RawBlock>, left: Source :: ReadableAs(bytes, data, bs, left)
  }

  ghost predicate ReadableAs(bytes: seq<Byte>, data: seq<Byte>, bs: seq<RawBlock>, left: Source) {
    BlocksAhead(StreamOf(bytes), bs, [], left) && StreamYield(bs, []) == data
  }
}
