/** The decompressor's codes: symbols through its tables, lengths, distances, and copying of matches. */
module InflateSymbols {
  import opened LzCodes
  import opened BitStream
  import opened CanonicalCode
  import opened InflateDecoder
  import opened DeflateSymbols
  import opened DeflateCodes
  import opened InflateReader

  /** Decodes the symbol whose code comes next. What the tables hold for bits that no code contains is not modelled. */
  method HuffDecode(table: HuffTable, src: Source) returns (r: Read<nat>)
    requires table.Represents() && NotOversubscribed(table.sizes)
    ensures r == TakeSymbol(table.sizes, src)
  {
    hide HuffTable.Represents, NotOversubscribed, Starts;
    if forall s: nat | s < |table.sizes| :: !Starts(table.sizes, s, src.bits) {
      NoneStarts(table.sizes, src);
      return Unknown;
    }
    var sym, codeLen := table.Decode(src.bits);
    OneStarts(table.sizes, src, sym);
    r := if src.used + codeLen <= src.end then Read(sym, Skip(src, codeLen)) else Rejected;
  }

  /** Copies `counter` bytes from `dist` bytes back, three at a time as far as they go. */
  method CopyMatch(out: seq<Byte>, counter: nat, dist: nat) returns (r: seq<Byte>)
    requires counter >= MIN_MATCH_LEN && 1 <= dist <= |out|
    ensures r == CopyBack(out, counter, dist)
  {
    r := out;
    var left: nat := counter;
    while left > 2
      invariant |r| >= |out| && CopyBack(r, left, dist) == CopyBack(out, counter, dist)
    {
      r := CopyByte(r, left, dist);
      r := CopyByte(r, left - 1, dist);
      r := CopyByte(r, left - 2, dist);
      left := left - 3;
    }
    if left > 0 {
      r := CopyByte(r, left, dist);
      if left > 1 {
        r := CopyByte(r, left - 1, dist);
      }
    }
  }

  method CopyByte(out: seq<Byte>, ghost left: nat, dist: nat) returns (r: seq<Byte>)
    requires left > 0 && 1 <= dist <= |out|
    ensures |r| == |out| + 1 && CopyBack(r, left - 1, dist) == CopyBack(out, left, dist)
  {
    r := out + [out[|out| - dist]];
  }

  /** The length that a symbol and its extra bits stand for. */
  method ReadLength(src: Source, sym: nat) returns (r: Read<nat>)
    requires sym > END_OF_BLOCK
    ensures r == TakeLength(src, sym)
  {
    if sym > 285 {
      return Unknown;
    }
    var extra := TakeBits(src, LengthExtraBits(sym));
    r := if extra.Read? then Read(LengthBase(sym) + extra.value, extra.left) else extra;
  }

  /** The distance that comes next. */
  method ReadDistance(table: HuffTable, src: Source) returns (r: Read<nat>)
    requires table.Represents() && NotOversubscribed(table.sizes)
    ensures r == TakeDistance(table.sizes, src)
  {
    hide HuffTable.Represents, NotOversubscribed, TakeSymbol;
    r := HuffDecode(table, src);
    if r.Read? {
      if r.value > 29 {
        return Unknown;
      }
      var extra := TakeBits(r.left, DistExtraBits(r.value));
      r := if extra.Read? then Read(DistBase(r.value) + extra.value, extra.left) else extra;
    }
  }

  /** Reads what follows a length symbol and copies the match; fails if it reaches back before the output. */
  method InflateMatch(distTable: HuffTable, src: Source, sym: nat, out: seq<Byte>) returns (r: Read<seq<Byte>>)
    requires distTable.Represents() && NotOversubscribed(distTable.sizes) && sym > END_OF_BLOCK
    ensures match TakeMatch(distTable.sizes, src, sym)
            case Rejected => r == Rejected
            case Unknown => r == Unknown
            case Read(c, left) => r == if Applicable(out, c) then Read(Apply(out, c), left) else Rejected
  {
    hide HuffTable.Represents, NotOversubscribed, TakeLength, TakeDistance, CopyBack;
    var counter := ReadLength(src, sym);
    if !counter.Read? {
      return if counter.Rejected? then Rejected else Unknown;
    }
    var distance := ReadDistance(distTable, counter.left);
    if !distance.Read? {
      return if distance.Rejected? then Rejected else Unknown;
    }
    if distance.value > |out| {
      return Rejected;
    }
    var copied := CopyMatch(out, counter.value, distance.value);
    r := Read(copied, distance.left);
  }

  /** Decodes codes until the end of the block. */
  method InflateCodes(litTable: HuffTable, distTable: HuffTable, src: Source, out: seq<Byte>) returns (r: Read<seq<Byte>>)
    requires litTable.Represents() && NotOversubscribed(litTable.sizes)
    requires distTable.Represents() && NotOversubscribed(distTable.sizes)
    ensures r == TakeCodes(litTable.sizes, distTable.sizes, src, out)
  {
    hide HuffTable.Represents, NotOversubscribed, TakeSymbol, TakeMatch, Apply, Applicable;
    ghost var lit, dist := litTable.sizes, distTable.sizes;
    var left, grown := src, out;
    while true
      invariant TakeCodes(lit, dist, src, out) == TakeCodes(lit, dist, left, grown)
      decreases ToEnd(left)
    {
      var sym := HuffDecode(litTable, left);
      if !sym.Read? {
        return if sym.Rejected? then Rejected else Unknown;
      }
      if sym.value == END_OF_BLOCK {
        return Read(grown, sym.left);
      }
      if sym.value < END_OF_BLOCK {
        left, grown := sym.left, grown + [sym.value];
      } else {
        var copied := InflateMatch(distTable, sym.left, sym.value, grown);
        if !copied.Read? {
          return copied;
        }
        left, grown := copied.left, copied.value;
      }
    }
  }
}
