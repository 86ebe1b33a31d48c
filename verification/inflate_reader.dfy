/** The meaning of the bits of a deflate stream, one read after another: what the decompressor computes, without its
    tables and buffers. The grammar of the format is elsewhere; that both agree is proved, not assumed. */
module InflateReader {
  import opened Powers
  import opened LzCodes
  import opened BitStream
  import opened CanonicalCode
  import opened InflateBudget
  import opened CodeLengthPacking
  import opened DeflateSymbols
  import opened DeflateCodes
  import opened DeflateHeader
  import opened DeflateBlock
  import opened DeflateStream

  /** A value and what is left, or a failure. `Unknown`: the stream holds bits that no code contains, or a symbol
      without a meaning. */
  datatype Read<T> = Read(value: T, left: Source) | Rejected | Unknown

  predicate Ahead(src: Source, left: Source) {
    src.used <= left.used <= left.end == src.end
  }

  ghost function ToEnd(src: Source): nat {
    if src.used <= src.end then src.end - src.used else 0
  }

  // ---------------------------------------------------------------- bits and symbols

  function TakeBits(src: Source, n: nat): (r: Read<nat>)
    ensures r.Read? ==> r.value < Pow2(n) && Ahead(src, r.left) && r.left.used == src.used + n
  {
    if src.used + n <= src.end then Read(src.bits % Pow2(n), Skip(src, n)) else Rejected
  }

  ghost function TakeSymbol(sizes: seq<nat>, src: Source): (r: Read<nat>)
    ensures r.Read? ==> r.value < |sizes| && Ahead(src, r.left) && src.used < r.left.used
  {
    if s: nat :| Starts(sizes, s, src.bits) then
      if src.used + sizes[s] <= src.end then Read(s, Skip(src, sizes[s])) else Rejected
    else Unknown
  }

  lemma NoneStarts(sizes: seq<nat>, src: Source)
    requires forall s: nat | s < |sizes| :: !Starts(sizes, s, src.bits)
    ensures TakeSymbol(sizes, src) == Unknown
  {
    assert forall s: nat :: Starts(sizes, s, src.bits) ==> s < |sizes|;
  }

  lemma {:induction false} OneStarts(sizes: seq<nat>, src: Source, s: nat)
    requires NotOversubscribed(sizes) && Starts(sizes, s, src.bits)
    ensures TakeSymbol(sizes, src) == if src.used + sizes[s] <= src.end then Read(s, Skip(src, sizes[s])) else Rejected
  {
    hide NotOversubscribed, Transmitted;
    var t: nat :| Starts(sizes, t, src.bits) && TakeSymbol(sizes, src) ==
      if src.used + sizes[t] <= src.end then Read(t, Skip(src, sizes[t])) else Rejected;
    PrefixFree(sizes, s, t, src.bits);
  }

  // ---------------------------------------------------------------- matches and codes

  /** Symbols 286 and 287 have no meaning. */
  function TakeLength(src: Source, s: nat): (r: Read<nat>)
    requires s > END_OF_BLOCK
    ensures r.Read? ==> MIN_MATCH_LEN <= r.value <= MAX_MATCH_LEN && Ahead(src, r.left)
  {
    if s > 285 then Unknown
    else
      match TakeBits(src, LengthExtraBits(s))
      case Rejected => Rejected
      case Unknown => Unknown
      case Read(x, left) => LengthInRange(s, x); Read(LengthBase(s) + x, left)
  }

  /** Neither have symbols 30 and 31 of a distance. */
  ghost function TakeDistance(dist: seq<nat>, src: Source): (r: Read<nat>)
    ensures r.Read? ==> 1 <= r.value <= LZ_DICT_SIZE && Ahead(src, r.left)
  {
    match TakeSymbol(dist, src)
    case Rejected => Rejected
    case Unknown => Unknown
    case Read(d, left) =>
      if d > 29 then Unknown
      else
        match TakeBits(left, DistExtraBits(d))
        case Rejected => Rejected
        case Unknown => Unknown
        case Read(x, left) => DistInRange(d, x); Read(DistBase(d) + x, left)
  }

  /** A match, after its length symbol. */
  ghost function TakeMatch(dist: seq<nat>, src: Source, s: nat): (r: Read<Code>)
    requires s > END_OF_BLOCK
    ensures r.Read? ==> r.value.Match? && Expressible(r.value) && Ahead(src, r.left)
  {
    match TakeLength(src, s)
    case Rejected => Rejected
    case Unknown => Unknown
    case Read(len, left) =>
      match TakeDistance(dist, left)
      case Rejected => Rejected
      case Unknown => Unknown
      case Read(distance, left) => Read(Match(len, distance), left)
  }

  /** The output after the codes of a block; a match may not reach back before the output. */
  ghost function TakeCodes(lit: seq<nat>, dist: seq<nat>, src: Source, out: seq<Byte>): (r: Read<seq<Byte>>)
    ensures r.Read? ==> Ahead(src, r.left)
    decreases ToEnd(src)
  {
    match TakeSymbol(lit, src)
    case Rejected => Rejected
    case Unknown => Unknown
    case Read(s, left) =>
      if s == END_OF_BLOCK then Read(out, left)
      else if s < END_OF_BLOCK then TakeCodes(lit, dist, left, out + [s])
      else
        match TakeMatch(dist, left, s)
        case Rejected => Rejected
        case Unknown => Unknown
        case Read(c, left) => if Applicable(out, c) then TakeCodes(lit, dist, left, Apply(out, c)) else Rejected
  }

  // ---------------------------------------------------------------- block headers

  /** The lengths of the code-length code, from place `j` of their order on. */
  function TakeLens(src: Source, lens: seq<nat>, j: nat, sent: nat): (r: Read<seq<nat>>)
    requires |lens| == 19 && j <= sent <= 19 && src.used <= src.end
    ensures r.Read? ==> |r.value| == 19 && Ahead(src, r.left)
    decreases sent - j
  {
    if j == sent then Read(lens, src)
    else
      match TakeBits(src, 3)
      case Rejected => Rejected
      case Unknown => Unknown
      case Read(v, left) => TakeLens(left, lens[Swizzle(j) := v], j + 1, sent)
  }

  /** How many copies a run stands for at least. */
  function RunBase(code: nat): nat
    requires code >= 16
  {
    if code == 18 then 11 else 3
  }

  /** The code lengths after those known, until there are `total` of them. */
  ghost function TakeSizes(lens: seq<nat>, src: Source, total: nat, known: seq<nat>): (r: Read<seq<nat>>)
    requires |lens| == 19 && src.used <= src.end
    ensures r.Read? ==> |r.value| == total && Ahead(src, r.left)
    decreases ToEnd(src)
  {
    if |known| >= total then
      if |known| == total then Read(known, src) else Rejected
    else
      match TakeSymbol(lens, src)
      case Rejected => Rejected
      case Unknown => Unknown
      case Read(s, left) =>
        if s < 16 then TakeSizes(lens, left, total, known + [s])
        else if s == 16 && known == [] then Rejected
        else
          match TakeBits(left, ExtraBits(s))
          case Rejected => Rejected
          case Unknown => Unknown
          case Read(x, left) =>
            TakeSizes(lens, left, total, known + Copies(if s == 16 then Last(known) else 0, x + RunBase(s)))
  }

  /** The two codes of a block. */
  datatype Codes = Codes(lit: seq<nat>, dist: seq<nat>)

  /** The three sizes, the code-length code, and the lengths; codes that are not accepted are rejected. */
  ghost function TakeHeader(src: Source): (r: Read<Codes>)
    ensures r.Read? ==> |r.value.lit| <= 288 && |r.value.dist| <= 32 && Ahead(src, r.left)
    ensures r.Read? ==> Accepted(r.value.lit) && Accepted(r.value.dist)
  {
    match TakeBits(src, 5)
    case Rejected => Rejected
    case Unknown => Unknown
    case Read(lits, left) =>
      match TakeBits(left, 5)
      case Rejected => Rejected
      case Unknown => Unknown
      case Read(dists, left) =>
        match TakeBits(left, 4)
        case Rejected => Rejected
        case Unknown => Unknown
        case Read(sent, left) => SmallPowers(); TakeLengths(left, lits + 257, dists + 1, sent + 4)
  }

  ghost function TakeLengths(src: Source, lits: nat, dists: nat, sent: nat): (r: Read<Codes>)
    requires sent <= 19 && src.used <= src.end
    ensures r.Read? ==> |r.value.lit| == lits && |r.value.dist| == dists && Ahead(src, r.left)
    ensures r.Read? ==> Accepted(r.value.lit) && Accepted(r.value.dist)
  {
    match TakeLens(src, Copies(0, 19), 0, sent)
    case Rejected => Rejected
    case Unknown => Unknown
    case Read(lens, left) =>
      if !Accepted(lens) then Rejected
      else
        match TakeSizes(lens, left, lits + dists, [])
        case Rejected => Rejected
        case Unknown => Unknown
        case Read(all, left) =>
          if Accepted(all[..lits]) && Accepted(all[lits..]) then Read(Codes(all[..lits], all[lits..]), left) else Rejected
  }

  // ---------------------------------------------------------------- blocks

  ghost function TakeBytes(src: Source, count: nat, out: seq<Byte>): (r: Read<seq<Byte>>)
    requires src.used <= src.end
    ensures r.Read? ==> Ahead(src, r.left)
    decreases count
  {
    if count == 0 then Read(out, src)
    else
      match TakeBits(src, 8)
      case Rejected => Rejected
      case Unknown => Unknown
      case Read(b, left) => SmallPowers(); TakeBytes(left, count - 1, out + [b])
  }

  /** A stored block: the rest of the byte, the length and its complement, and the bytes. */
  ghost function TakeStored(src: Source, out: seq<Byte>): (r: Read<seq<Byte>>)
    ensures r.Read? ==> Ahead(src, r.left)
  {
    match TakeBits(src, Missing(src.used))
    case Rejected => Rejected
    case Unknown => Unknown
    case Read(_, left) =>
      match TakeBits(left, 16)
      case Rejected => Rejected
      case Unknown => Unknown
      case Read(len, left) =>
        match TakeBits(left, 16)
        case Rejected => Rejected
        case Unknown => Unknown
        case Read(nlen, left) => if len == 0xFFFF - nlen then TakeBytes(left, len, out) else Rejected
  }

  /** The output after a block, and whether it is the last. Type 3 is reserved. */
  datatype Progress = Progress(last: bool, out: seq<Byte>)

  ghost function TakeBody(src: Source, kind: nat, out: seq<Byte>): (r: Read<seq<Byte>>)
    ensures r.Read? ==> Ahead(src, r.left)
  {
    if kind == 0 then TakeStored(src, out)
    else if kind == 1 then TakeCodes(StaticLit(), StaticDist(), src, out)
    else if kind == 2 then
      match TakeHeader(src)
      case Rejected => Rejected
      case Unknown => Unknown
      case Read(codes, left) => TakeCodes(codes.lit, codes.dist, left, out)
    else Rejected
  }

  ghost function TakeBlock(src: Source, out: seq<Byte>): (r: Read<Progress>)
    ensures r.Read? ==> Ahead(src, r.left) && src.used < r.left.used
  {
    match TakeBits(src, 3)
    case Rejected => Rejected
    case Unknown => Unknown
    case Read(header, left) =>
      match TakeBody(left, header / 2, out)
      case Rejected => Rejected
      case Unknown => Unknown
      case Read(grown, left) => Read(Progress(header % 2 == 1, grown), left)
  }

  /** The output after all blocks up to the last. */
  ghost function TakeBlocks(src: Source, out: seq<Byte>): (r: Read<seq<Byte>>)
    ensures r.Read? ==> Ahead(src, r.left)
    decreases ToEnd(src)
  {
    match TakeBlock(src, out)
    case Rejected => Rejected
    case Unknown => Unknown
    case Read(p, left) => if p.last then Read(p.out, left) else TakeBlocks(left, p.out)
  }

  /** What the bytes decompress to. */
  ghost function Taken(bytes: seq<Byte>): Read<seq<Byte>> {
    TakeBlocks(StreamOf(bytes), [])
  }
}
