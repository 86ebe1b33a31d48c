/** The decompressor's compressed blocks: tables from the header or the static ones, then the codes. */
module InflateCompressedBlock {
  import opened Powers
  import opened LzCodes
  import opened BitStream
  import opened CanonicalCode
  import opened InflateBudget
  import opened InflateDecoder
  import opened CodeLengthPacking
  import opened DeflateSymbols
  import opened DeflateHeader
  import opened DeflateBlock
  import opened InflateReader
  import opened InflateSymbols
  import opened InflateExact

  /** A table for code lengths the decompressor accepts. */
  method BuildTable(sizes: seq<nat>) returns (ok: bool, table: HuffTable)
    requires |sizes| <= 288 && Lengths(sizes)
    ensures ok <==> Accepted(sizes)
    ensures fresh(table) && fresh(table.lookUp) && fresh(table.tree)
    ensures ok ==> table.Represents() && table.sizes == sizes && NotOversubscribed(table.sizes)
  {
    hide HuffTable.Represents, Accepted, Lengths;
    table := new HuffTable();
    ok := table.Build(sizes);
    if ok {
      AcceptedFits(sizes);
    }
  }

  /** The lengths of the code-length code, in the order they are sent; the others are zero. */
  method ReadLens(src: Source, sent: nat) returns (r: Read<seq<nat>>)
    requires sent <= 19 && src.used <= src.end
    ensures r == TakeLens(src, Copies(0, 19), 0, sent)
  {
    hide TakeBits, Swizzle;
    var codeSize := new nat[19](_ => 0);
    var left, counter := src, 0;
    assert codeSize[..] == Copies(0, 19);
    while counter < sent
      invariant 0 <= counter <= sent && left.used <= left.end
      invariant TakeLens(src, Copies(0, 19), 0, sent) == TakeLens(left, codeSize[..], counter, sent)
    {
      var s := TakeBits(left, 3);
      if !s.Read? {
        return if s.Rejected? then Rejected else Unknown;
      }
      ghost var before: seq<nat> := codeSize[..];
      codeSize[Swizzle(counter)] := s.value;
      assert codeSize[..] == before[Swizzle(counter) := s.value];
      left, counter := s.left, counter + 1;
    }
    r := Read(codeSize[..], left);
  }

  const LEN_CODES_SIZE := 320 + 32 + 137

  /** Appends `count` copies of `v` to what is known of the lengths. */
  method Fill(lenCodes: array<nat>, at: nat, v: nat, count: nat)
    requires at + count <= lenCodes.Length
    modifies lenCodes
    ensures lenCodes[..at + count] == old(lenCodes[..at]) + Copies(v, count)
  {
    forall i | at <= i < at + count {
      lenCodes[i] := v;
    }
  }

  /** A run is never longer than 138. */
  lemma RunFits(s: nat, x: nat)
    requires 16 <= s < 19 && x < Pow2(ExtraBits(s))
    ensures x + RunBase(s) <= 138
  {
    SmallPowers();
  }

  /** Reads packed code lengths until there are `total` of them. It fails if the first is a repetition or the last
      run goes too far. */
  method ReadCodeSizes(table: HuffTable, src: Source, total: nat) returns (r: Read<seq<nat>>)
    requires table.Represents() && NotOversubscribed(table.sizes) && |table.sizes| == 19
    requires total <= 320 && src.used <= src.end
    ensures r == TakeSizes(table.sizes, src, total, [])
  {
    hide HuffTable.Represents, NotOversubscribed, TakeSymbol, TakeBits, Pow2;
    ghost var lens := table.sizes;
    var lenCodes := new nat[LEN_CODES_SIZE](_ => 0);
    var left, counter: nat := src, 0;
    assert lenCodes[..0] == [];
    while counter < total
      invariant counter <= lenCodes.Length && left.used <= left.end
      invariant TakeSizes(lens, src, total, []) == TakeSizes(lens, left, total, lenCodes[..counter])
      decreases ToEnd(left)
    {
      ghost var known := lenCodes[..counter];
      var sym := HuffDecode(table, left);
      if !sym.Read? {
        return if sym.Rejected? then Rejected else Unknown;
      }
      if sym.value < 16 {
        lenCodes[counter] := sym.value;
        assert lenCodes[..counter + 1] == known + [sym.value];
        left, counter := sym.left, counter + 1;
        continue;
      }
      if sym.value == 16 && counter == 0 {
        return Rejected;
      }
      var extra := TakeBits(sym.left, ExtraBits(sym.value));
      if !extra.Read? {
        return if extra.Rejected? then Rejected else Unknown;
      }
      RunFits(sym.value, extra.value);
      var s := extra.value + RunBase(sym.value);
      Fill(lenCodes, counter, if sym.value == 16 then lenCodes[counter - 1] else 0, s);
      left, counter := extra.left, counter + s;
    }
    r := if counter == total then Read(lenCodes[..counter], left) else Rejected;
  }

  /** Reads the code lengths of both alphabets. */
  method ReadHeader(src: Source) returns (r: Read<Codes>)
    ensures r == TakeHeader(src)
  {
    SmallPowers();
    hide TakeBits, TakeLengths, Pow2;
    var litSize := TakeBits(src, 5);
    if !litSize.Read? {
      return if litSize.Rejected? then Rejected else Unknown;
    }
    var distSize := TakeBits(litSize.left, 5);
    if !distSize.Read? {
      return if distSize.Rejected? then Rejected else Unknown;
    }
    var sent := TakeBits(distSize.left, 4);
    if !sent.Read? {
      return if sent.Rejected? then Rejected else Unknown;
    }
    r := ReadLengths(sent.left, litSize.value + 257, distSize.value + 1, sent.value + 4);
  }

  /** Reads the code-length code and with it the lengths of both codes. */
  method ReadLengths(src: Source, litSize: nat, distSize: nat, sent: nat) returns (r: Read<Codes>)
    requires sent <= 19 && src.used <= src.end && litSize <= 288 && distSize <= 32
    ensures r == TakeLengths(src, litSize, distSize, sent)
  {
    hide HuffTable.Represents, TakeLens, TakeSizes, Accepted, Lengths, NotOversubscribed;
    var codeSize := ReadLens(src, sent);
    if !codeSize.Read? {
      return if codeSize.Rejected? then Rejected else Unknown;
    }
    LensShort(src, sent);
    var ok, table := BuildTable(codeSize.value);
    if !ok {
      return Rejected;
    }
    var lenCodes := ReadCodeSizes(table, codeSize.left, litSize + distSize);
    if !lenCodes.Read? {
      return if lenCodes.Rejected? then Rejected else Unknown;
    }
    SizesShort(table.sizes, codeSize.left, litSize + distSize, []);
    var lit, dist := lenCodes.value[..litSize], lenCodes.value[litSize..];
    PartsShort(lenCodes.value, litSize);
    var distOk, distTable := BuildTable(dist);
    var litOk, litTable := BuildTable(lit);
    r := if distOk && litOk then Read(Codes(lit, dist), lenCodes.left) else Rejected;
  }

  lemma PartsShort(sizes: seq<nat>, n: nat)
    requires n <= |sizes| && Lengths(sizes)
    ensures Lengths(sizes[..n]) && Lengths(sizes[n..])
  {
  }

  lemma {:induction false} LensShort(src: Source, sent: nat)
    requires sent <= 19 && src.used <= src.end && TakeLens(src, Copies(0, 19), 0, sent).Read?
    ensures Lengths(TakeLens(src, Copies(0, 19), 0, sent).value)
  {
    LensSound(src, Copies(0, 19), 0, sent);
  }

  lemma {:induction false} SizesShort(lens: seq<nat>, src: Source, total: nat, known: seq<nat>)
    requires |lens| == 19 && src.used <= src.end && (known == [] || Lengths(known)) && TakeSizes(lens, src, total, known).Read?
    ensures Lengths(TakeSizes(lens, src, total, known).value)
    decreases ToEnd(src)
  {
    hide TakeSymbol, TakeBits;
    if |known| < total {
      var sym := TakeSymbol(lens, src);
      if sym.value < 16 {
        SizesShort(lens, sym.left, total, known + [sym.value]);
      } else {
        var x := TakeBits(sym.left, ExtraBits(sym.value));
        SizesShort(lens, x.left, total, known + Copies(if sym.value == 16 then Last(known) else 0, x.value + RunBase(sym.value)));
      }
    }
  }

  /** Decodes the codes with the tables for the given lengths. */
  method InflateWith(lit: seq<nat>, dist: seq<nat>, src: Source, out: seq<Byte>) returns (r: Read<seq<Byte>>)
    requires Accepted(lit) && Accepted(dist) && |lit| <= 288 && |dist| <= 288
    ensures r == TakeCodes(lit, dist, src, out)
  {
    hide Accepted, Lengths, HuffTable.Represents, NotOversubscribed, TakeCodes;
    AcceptedLengths(lit);
    AcceptedLengths(dist);
    var built, distTable := BuildTable(dist);
    var litTable;
    built, litTable := BuildTable(lit);
    r := InflateCodes(litTable, distTable, src, out);
  }

  /** Decodes a compressed block, after the bits that tell its type. */
  method InflateCompressed(kind: nat, src: Source, out: seq<Byte>) returns (r: Read<seq<Byte>>)
    requires kind == 1 || kind == 2
    ensures r == TakeBody(src, kind, out)
  {
    hide TakeCodes, TakeHeader, StaticLit, StaticDist, Accepted;
    if kind == 1 {
      StaticComplete();
      r := InflateWith(StaticLit(), StaticDist(), src, out);
    } else {
      var codes := ReadHeader(src);
      if !codes.Read? {
        return if codes.Rejected? then Rejected else Unknown;
      }
      r := InflateWith(codes.value.lit, codes.value.dist, codes.left, out);
    }
  }
}
