/** The compressor as a whole: the parser, the blocks it writes, and flushing. */
module DeflateCompress {
  import opened Powers
  import opened LzCodes
  import opened LzCodeBuffer
  import opened LzBuffers
  import opened LzParse
  import opened LzParser
  import opened BitStream
  import opened DeflateSymbols
  import opened DeflateBlock
  import opened DeflateStream
  import opened DynamicSize
  import opened DeflateMarker
  import opened DeflateChoice

  datatype Flush = NoFlush | SyncFlush | FullFlush | Finish

  /** Whether a flushed block could be delivered. */
  datatype Status = Delivered | Pending

  lemma {:induction false} RoomLeft(limit: nat, out: seq<Byte>, bitBuffer: nat, bitsIn: nat, fields: seq<Field>)
    requires WriterState(limit, out, bitBuffer, bitsIn, fields) && Width(fields) < 8 * limit
    ensures |out| < limit
  {
  }

  lemma Remaining(limit: nat, out: seq<Byte>, bitBuffer: nat, bitsIn: nat, fields: seq<Field>)
    requires WriterState(limit, out, bitBuffer, bitsIn, fields)
    ensures bitsIn == Width(fields) % 8
  {
  }

  /** Unless the output is full, it holds the whole bytes of the fields. */
  lemma WholeBytes(limit: nat, out: seq<Byte>, bitBuffer: nat, bitsIn: nat, fields: seq<Field>)
    requires WriterState(limit, out, bitBuffer, bitsIn, fields) && |out| < limit
    ensures |out| == Width(fields) / 8
    ensures bitsIn == 0 ==> Number(out) == Packed(fields) && 8 * |out| == Width(fields) && FieldsOk(fields)
  {
    assert Pow2(0) == 1;
  }

  lemma {:induction false} FirstBit(part: seq<Field>, final: bool, block: Block, at: nat)
    requires BlockBody(part, block, at + 1)
    ensures BlockAt([Field(if final then 1 else 0, 1)] + part, final, block, at)
  {
    hide BlockBody;
    assert ([Field(if final then 1 else 0, 1)] + part)[1..] == part;
  }

  lemma {:induction false} NoFields()
    ensures Width([]) == 0
  {
  }

  /** A block for the codes, or for the bytes they stand for. */
  ghost predicate StandsFor(codes: seq<Code>, bytes: seq<Byte>, block: Block) {
    block == Coded(codes) || block == Stored(bytes)
  }

  class Deflater {
    const p: Compressor
    const w: BitWriter
    /** The destination takes every block at once, as a growing buffer does. */
    const takesAll: bool
    ghost var parts: seq<seq<Field>>

    /** The bits written so far are a stream of the blocks, and none was lost. */
    ghost predicate Written(finished: bool)
      reads this, p`blocks, w
    {
      && w.Valid() && (|w.out| < w.limit || w.fields == [])
      && Stream(parts, p.blocks, finished)
      && w.fields == Flatten(parts) + (if finished then Padding(Width(Flatten(parts))) else [])
    }

    ghost predicate Valid()
      reads this, p, p.dict, p.next, p.hash, p.lz, p.lz.codeBuf, p.lz.litCounts, p.lz.distCounts, w
    {
      p.Valid() && Written(false) && !Full() && Early(p.options, p.open)
    }

    /** The recorded codes are worth a block: their buffer is full, or they stand for enough bytes and save little. */
    predicate Full()
      reads p, p.lz
    {
      || p.lz.end > CODE_BUF_SIZE - 8
      || (p.lz.totalBytes > ENOUGH && (p.lz.end * 115 / 128 >= p.lz.totalBytes || p.options.rawBlocks))
    }

    lemma FullIsWorth()
      requires p.lz.Valid()
      ensures Full() == Worth(p.options, p.lz.codes)
    {
      TakenExactly(p.lz.codeBuf[..p.lz.end], p.lz.flagsPos, p.lz.numFlagsLeft, p.lz.codes, p.lz.full);
    }

    /** Nothing became known since the last decision. */
    ghost predicate Settled()
      reads p`open, p`history, p`savedMatchLen
    {
      if p.open == [] then p.savedMatchLen == 0 else var t := p.open[|p.open| - 1]; t.at + t.look == |p.history|
    }

    /** Whether the bytes of the block are still in the dictionary can be told from its decisions. */
    lemma WindowByTurns()
      requires p.Steady() && Settled()
      ensures InWindow() == StillThere(p.options, p.open)
    {
      hide Reach, Decodable, TurnOk, DecodableBlocks, ExpandBlocks;
      p.Accounting();
      if p.open != [] {
        assert (AllTurns(p.closed) + p.open)[|AllTurns(p.closed) + p.open| - 1] == p.open[|p.open| - 1];
      }
    }

    constructor (options: Options, probes: nat, takesAll: bool)
      requires probes < 4096
      ensures this.takesAll == takesAll && p.options == options && p.maxProbes0 == 1 + (probes + 2) / 3
      ensures p.maxProbes1 == 1 + (probes / 4 + 2) / 3 && p.since == p.sinceBlock == 0
      ensures Valid() && p.history == [] && p.blocks == [] && parts == [] && p.Turns() == [] && fresh(w) && fresh(p) && fresh(p.dict) && fresh(p.next) && fresh(p.hash)
      ensures fresh(p.lz) && fresh(p.lz.codeBuf) && fresh(p.lz.litCounts) && fresh(p.lz.distCounts)
    {
      p := new Compressor(options, probes);
      w := new BitWriter();
      this.takesAll := takesAll;
      parts := [];
    }

    /** There is room for a whole static or stored block. */
    ghost predicate Room()
      reads w
    {
      w.Valid() && Width(w.fields) <= 8 * (w.limit - (OUT_BUF_SIZE - 16)) + 8
    }

    /** There is room for the end of the stream, or for an empty stored block. */
    ghost predicate Spare()
      reads w
    {
      w.Valid() && Width(w.fields) + 56 <= 8 * w.limit
    }

    lemma SpareLeft(before: seq<Field>, part: seq<Field>)
      requires w.Valid() && w.fields == before + part && Width(part) + 64 <= 8 * (OUT_BUF_SIZE - 16)
      requires Width(before) <= 8 * (w.limit - (OUT_BUF_SIZE - 16)) + 8
      ensures Spare() && |w.out| < w.limit
    {
      hide WriterState, Width;
      WidthConcat(before, part);
      RoomLeft(w.limit, w.out, w.bitBuffer, w.bitsIn, w.fields);
    }

    /** Writes the bytes of the block from the dictionary. */
    method StoreRaw() returns (ghost part: seq<Field>, ghost block: Block)
      requires p.Finished() && Room() && p.lookaheadPos - p.blockStart <= p.dictSize
      modifies w`out, w`bitBuffer, w`bitsIn, w`fields
      ensures block == Stored(p.history[p.blockStart..p.CodedTo()]) && BlockBody(part, block, Width(old(w.fields)))
      ensures Spare() && |w.out| < w.limit && w.fields == old(w.fields) + part
    {
      hide WriterState, Width, Reach, Repeats, Serialized, Counted, DecodableBlocks, ExpandBlocks, StoredFields,
        Compressor.SavedAt;
      ReachBounds(p.history, p.blockStart, p.lz.codes, p.CodedTo());
      var bytes := p.BlockBytes(p.lz.totalBytes);
      ghost var before := w.fields;
      part, block := StoredFields(bytes, Width(w.fields)), Stored(bytes);
      PutStored(w, bytes);
      StoredWidth(bytes, Width(before));
      SpareLeft(before, part);
    }

    /** Writes the codes again, with the static codes. */
    method StaticAgain() returns (ghost part: seq<Field>)
      requires p.Finished() && Room()
      modifies w`out, w`bitBuffer, w`bitsIn, w`fields, p.lz.litCounts
      ensures CompressedBlock(part, p.lz.codes) && Spare() && |w.out| < w.limit && w.fields == old(w.fields) + part
    {
      hide WriterState, Width, Reach, Repeats, Serialized, Counted, DecodableBlocks, ExpandBlocks, CompressedBlock, StaticBlock,
        Compressor.WindowOk, Compressor.SavedAt, Compressor.CodesReach;
      ghost var before := w.fields;
      var ok;
      ok, part := CompressBlock(w, p.lz, true);
      StaticFits(part, p.lz.codes);
      SpareLeft(before, part);
    }

    /** Any compressed block fits, with codes of its own or with the static ones. */
    lemma CompressedFits(part: seq<Field>, cs: seq<Code>, out: seq<Byte>, bitBuffer: nat, bitsIn: nat, before: seq<Field>)
      requires AllExpressible(cs) && |Serialized(cs)| <= CODE_BUF_SIZE && (StaticBlock(part, cs) || ThriftyBlock(part, cs))
      requires WriterState(w.limit, out, bitBuffer, bitsIn, before + part)
      requires Width(before) <= 8 * (w.limit - (OUT_BUF_SIZE - 16)) + 8
      ensures Width(before + part) + 56 <= 8 * w.limit && |out| < w.limit
    {
      hide WriterState, Width, StaticBlock, ThriftyBlock, Serialized;
      if StaticBlock(part, cs) {
        StaticFits(part, cs);
      } else {
        ThriftyFits(part, cs);
      }
      WidthConcat(before, part);
      RoomLeft(w.limit, out, bitBuffer, bitsIn, before + part);
    }

    /** The bytes of the block are still in the dictionary. */
    predicate InWindow()
      reads p
    {
      p.lookaheadPos - p.blockStart <= p.dictSize
    }

    lemma BytesOfBlock()
      requires p.Finished()
      ensures p.lz.totalBytes == Span(p.lz.codes)
    {
      hide Reach, DecodableBlocks, ExpandBlocks, Serialized, CodedFrom, Parse, AllRecorded, Compressor.ChainsOk, Compressor.WindowOk;
      ReachSpan(p.history, p.blockStart, p.lz.codes, p.CodedTo());
    }

    /** Writes the recorded codes, or the bytes they stand for if the codes are no shorter. Whatever form is written
        first fits the output buffer: the code never falls back on the static codes for lack of room. */
    method WriteBody() returns (ghost part: seq<Field>, ghost block: Block, ghost fellBack: bool)
      requires p.Finished() && Counted(p.lz.litCounts[..], p.lz.distCounts[..], p.lz.codes)
      requires Room()
      modifies w`out, w`bitBuffer, w`bitsIn, w`fields, p.lz.litCounts
      ensures p.Finished() && !fellBack
      ensures block == Coded(p.lz.codes) || block == Stored(p.history[p.blockStart..p.CodedTo()])
      ensures Spare() && |w.out| < w.limit
      ensures w.fields == old(w.fields) + part && BlockBody(part, block, Width(old(w.fields)))
      ensures ChosenBody(p.options, InWindow(), Width(old(w.fields)), part, block, p.lz.codes)
    {
      hide WriterState, Width, Reach, Repeats, Serialized, Counted, DecodableBlocks, ExpandBlocks, CompressedBlock, StaticBlock,
        ThriftyBlock, StoredFields, Compressor.WindowOk, Compressor.SavedAt, Compressor.CodesReach, CodedFrom, Compressor.ChainsOk,
        Compressor.SelfContained, Compressor.Traced;
      var inWindow := InWindow();
      BytesOfBlock();
      RoomBefore();
      WholeBytes(w.limit, w.out, w.bitBuffer, w.bitsIn, w.fields);
      var useRawBlock := p.options.rawBlocks && inWindow;
      var out0, bitBuffer0, bitsIn0 := w.out, w.bitBuffer, w.bitsIn;
      ghost var fields0 := w.fields;
      var succeeded := false;
      part := [];
      if !useRawBlock {
        succeeded, part := CompressBlock(w, p.lz, p.options.staticBlocks || p.lz.totalBytes < 48);
        block := Coded(p.lz.codes);
      }
      ghost var tried, first, out1, bitBuffer1, bitsIn1 := !useRawBlock, part, w.out, w.bitBuffer, w.bitsIn;
      fellBack := false;
      if (useRawBlock || (p.lz.totalBytes > 0 && |w.out| - |out0| + 1 >= p.lz.totalBytes)) && inWindow {
        w.Rewind(out0, bitBuffer0, bitsIn0, fields0);
        part, block := StoreRaw();
      } else if !succeeded {
        fellBack := true;
        w.Rewind(out0, bitBuffer0, bitsIn0, fields0);
        part := StaticAgain();
      }
      if tried {
        CompressedFits(first, p.lz.codes, out1, bitBuffer1, bitsIn1, fields0);
        WholeBytes(w.limit, out1, bitBuffer1, bitsIn1, fields0 + first);
        WidthConcat(fields0, first);
        assert CompressedForm(p.options, first, p.lz.codes) && (block.Stored? ==> NoShorter(Width(fields0), first, p.lz.codes));
      }
    }

    /** There is room left before a block. */
    lemma RoomBefore()
      requires Room()
      ensures |w.out| < w.limit
    {
      hide WriterState, Width;
      RoomLeft(w.limit, w.out, w.bitBuffer, w.bitsIn, w.fields);
    }

    /** Writes a block and what the kind of flush asks for: the end of the stream, or an empty stored block. */
    method FlushBlock(flush: Flush) returns (status: Status, ghost block: Block)
      requires p.Steady() && Written(false) && Settled()
      modifies `parts, w, p`blockStart, p`blocks, p`closed, p`open, p.lz, p.lz.codeBuf, p.lz.litCounts, p.lz.distCounts
      ensures p.Valid() && p.lz.codes == [] && p.blockStart == p.CodedTo()
      ensures Written(flush == Finish) && |w.out| < w.limit && (flush == Finish ==> w.bitsIn == 0) && !Full()
      ensures takesAll ==> status != Pending
      ensures StandsFor(old(p.lz.codes), old(p.history[p.blockStart..p.CodedTo()]), block)
      ensures p.blocks == old(p.blocks) + [block] + (if flush == SyncFlush || flush == FullFlush then [Stored([])] else [])
      ensures p.closed == old(p.closed) + [old(p.open)] + (if flush == SyncFlush || flush == FullFlush then [[]] else [])
      ensures old(parts) < parts && p.open == [] && p.Turns() == old(p.Turns())
      ensures ChosenForm(p.options, Width(Flatten(old(parts))), parts[|old(parts)|], block, old(p.open))
      ensures flush == SyncFlush || flush == FullFlush ==> w.bitsIn == 0 && Marked(w.out, w.fields)
    {
      hide Width, Reach, Repeats, Serialized, Counted, DecodableBlocks, ExpandBlocks, Compressor.WindowOk, Compressor.SavedAt,
        Compressor.CodesReach, Stream, Flatten, LzBuffer.Valid, Pow2, WriterState, CodedFrom, Compressor.ChainsOk, StandsFor, Marked, ChosenForm;
      block := WriteBlock(flush == Finish);
      if flush == Finish {
        PaddingWidth(Width(w.fields));
        WidthConcat(w.fields, Padding(Width(w.fields)));
        Align(w);
      } else if flush != NoFlush {
        WriteMarker();
      }
      RoomForEnd();
      assert |w.out| < w.limit;
      var pending: bool := *;
      status := if pending && !takesAll then Pending else Delivered;
    }

    lemma RoomForEnd()
      requires w.Valid() && Width(w.fields) < 8 * w.limit
      ensures |w.out| < w.limit
    {
      hide WriterState, Width;
      RoomLeft(w.limit, w.out, w.bitBuffer, w.bitsIn, w.fields);
    }

    /** Makes room for a block and writes its first bit. */
    method StartBlock(final: bool)
      requires w.Valid() && (|w.out| < w.limit || w.fields == [])
      modifies w
      ensures Room() && w.fields == old(w.fields) + [Field(if final then 1 else 0, 1)]
    {
      hide Width, Pow2, Number, Packed, FieldsOk;
      SmallPowers();
      OneMoreField(w.fields, Field(if final then 1 else 0, 1));
      NoFields();
      w.Extend(OUT_BUF_SIZE - 16);
      w.PutBits(if final then 1 else 0, 1);
    }

    /** Writes the recorded codes as a block and starts the next one. */
    method WriteBlock(final: bool) returns (ghost block: Block)
      requires p.Steady() && Written(false) && Settled()
      modifies `parts, w, p`blockStart, p`blocks, p`closed, p`open, p.lz, p.lz.codeBuf, p.lz.litCounts, p.lz.distCounts
      ensures p.Valid() && p.lz.codes == [] && p.blockStart == p.CodedTo()
      ensures p.closed == old(p.closed) + [old(p.open)] && p.open == [] && p.Turns() == old(p.Turns())
      ensures |parts| == |old(parts)| + 1 && old(parts) < parts
      ensures ChosenForm(p.options, Width(Flatten(old(parts))), parts[|old(parts)|], block, old(p.open))
      ensures Spare() && |w.out| < w.limit && Stream(parts, p.blocks, final) && w.fields == Flatten(parts)
      ensures p.lz.end == 1 && p.lz.totalBytes == 0
      ensures StandsFor(old(p.lz.codes), old(p.history[p.blockStart..p.CodedTo()]), block) && p.blocks == old(p.blocks) + [block]
    {
      hide Width, Reach, Repeats, Serialized, Counted, DecodableBlocks, ExpandBlocks, Compressor.WindowOk, Compressor.SavedAt,
        CodedFrom, Compressor.ChainsOk, Compressor.CodesReach, Stream, BlockBody, Flatten, LzBuffer.Valid, Pow2, WriterState, Room,
        CompressedBlock, BlockAt, ChosenBody, StillThere, AllRecorded, AllTurns, Parse, Deflater.InWindow, Compressor.Finished,
        Compressor.SelfContained, Compressor.Shape;
      ghost var before, f := w.fields, Field(if final then 1 else 0, 1);
      assert before == Flatten(parts);
      OneMoreField(before, f);
      WindowByTurns();
      p.FinishCodes();
      StartBlock(final);
      ghost var part, fellBack;
      part, block, fellBack := WriteBody();
      FirstBit(part, final, block, Width(before));
      assert ([f] + part)[1..] == part;
      StreamOne(parts, p.blocks, [f] + part, block, final);
      parts := parts + [[f] + part];
      p.NextBlock(block);
    }

    /** Writes an empty stored block: three zero bits, alignment, and the two lengths. */
    method WriteMarker()
      requires p.Valid() && Spare() && Stream(parts, p.blocks, false) && w.fields == Flatten(parts)
      modifies `parts, w`out, w`bitBuffer, w`bitsIn, w`fields, p`blocks, p`closed
      ensures old(parts) < parts && p.closed == old(p.closed) + [[]] && p.Turns() == old(p.Turns())
      ensures w.bitsIn == 0 && Marked(w.out, w.fields)
      ensures p.Valid() && w.Valid() && Stream(parts, p.blocks, false) && w.fields == Flatten(parts)
      ensures Width(w.fields) < 8 * w.limit
      ensures p.blocks == old(p.blocks) + [Stored([])]
    {
      hide Width, Compressor.WindowOk, Compressor.SavedAt, Compressor.CodesReach, Stream, Flatten, LzBuffer.Valid, Pow2, StoredFields,
        CodedFrom, Compressor.ChainsOk, WriterState, Marked;
      ghost var before, f := w.fields, Field(0, 1);
      SmallPowers();
      OneMoreField(before, f);
      w.PutBits(0, 1);
      ghost var part := StoredFields([], Width(w.fields));
      PutStored(w, []);
      StreamOne(parts, p.blocks, [f] + part, Stored([]), false);
      StoredWidth([], Width(before + [f]));
      WidthConcat(before, [f]);
      WidthOne(f);
      WidthConcat(before + [f], part);
      parts := parts + [[f] + part];
      p.AddEmptyBlock();
      MarkerWritten(before + [f]);
    }

    /** The bits of an empty stored block are all in the output, and end it. */
    lemma MarkerWritten(before: seq<Field>)
      requires w.Valid() && Width(w.fields) < 8 * w.limit && w.fields == before + StoredFields([], Width(before))
      ensures w.bitsIn == 0 && Marked(w.out, w.fields)
    {
      hide WriterState, Padding, Marked, Packed, Number, FieldsOk, Width, StoredFields;
      var front := MarkerFields(before);
      RoomLeft(w.limit, w.out, w.bitBuffer, w.bitsIn, w.fields);
      Remaining(w.limit, w.out, w.bitBuffer, w.bitsIn, w.fields);
      WholeBytes(w.limit, w.out, w.bitBuffer, w.bitsIn, w.fields);
      PartsOk(front + [Field(0, 16)], [Field(0xFFFF, 16)]);
      PartsOk(front, [Field(0, 16)]);
      MarkerBytes(w.out, front, w.fields);
    }

    /** Closes a block that is full. */
    method CloseFull(ghost from: nat) returns (status: Status)
      requires p.Steady() && Written(false) && Settled() && Full() && Early(p.options, p.open)
      requires from <= |parts| && CutFrom(p.options, from, |parts|, parts, p.blocks, p.closed)
      modifies `parts, w, p`blockStart, p`blocks, p`closed, p`open, p.lz, p.lz.codeBuf, p.lz.litCounts, p.lz.distCounts
      ensures Valid() && (takesAll ==> status != Pending) && p.Turns() == old(p.Turns())
      ensures from <= |parts| && CutFrom(p.options, from, |parts|, parts, p.blocks, p.closed)
    {
      hide Compressor.WindowOk, Compressor.SavedAt, Compressor.CodesReach, LzBuffer.Valid, WriterState, Flatten, Padding,
        CodedFrom, Compressor.ChainsOk, Marked, ChosenForm, CutFrom, Worth, BlockAt, AllRecorded, AllTurns, Parse, Width;
      FullIsWorth();
      ghost var block;
      ghost var parts0, blocks0, closed0, open0 := parts, p.blocks, p.closed, p.open;
      status, block := FlushBlock(NoFlush);
      assert parts == parts0 + [parts[|parts0|]] && p.blocks == blocks0 + [block] && p.closed == closed0 + [open0];
      CutOne(p.options, from, parts0, blocks0, closed0, parts[|parts0|], block, open0);
    }

    /** One decision, and the block that it may complete. */
    method DecideOne(ghost from: nat) returns (status: Status, ghost t: Turn)
      requires Valid() && p.lookaheadSize > 0
      requires from <= |parts| && CutFrom(p.options, from, |parts|, parts, p.blocks, p.closed)
      modifies this, w, p, p.lz, p.lz.codeBuf, p.lz.litCounts, p.lz.distCounts
      ensures Valid() && p.history == old(p.history) && p.since == old(p.since) && p.sinceBlock == old(p.sinceBlock)
      ensures p.lookaheadSize < old(p.lookaheadSize) && (takesAll ==> status != Pending)
      ensures from <= |parts| && CutFrom(p.options, from, |parts|, parts, p.blocks, p.closed)
      ensures p.Turns() == old(p.Turns()) + [t]
      ensures t.since == p.since && t.look == old(p.lookaheadSize) && t.at + t.look == |p.history|
    {
      hide Compressor.WindowOk, Compressor.SavedAt, Compressor.CodesReach, LzBuffer.Valid, WriterState, Stream, Flatten, Padding,
        CodedFrom, Compressor.ChainsOk, CutFrom, Worth, AllRecorded, Parse, TurnOk, Compressor.Turns;
      FullIsWorth();
      ghost var open := p.open;
      var move;
      move, t := p.Decide();
      p.Advance(move);
      EarlyOne(p.options, open, t);
      FullIsWorth();
      status := Delivered;
      if p.lz.end > CODE_BUF_SIZE - 8
         || (p.lz.totalBytes > 31 * 1024 && (p.lz.end * 115 / 128 >= p.lz.totalBytes || p.options.rawBlocks)) {
        status := CloseFull(from);
      }
    }

    /** Takes input until it is used up or output is pending; with `flush` also the whole lookahead. */
    method CompressNormal(src: seq<Byte>, flush: bool) returns (used: nat, pending: bool)
      requires Valid()
      modifies this, w, p, p.dict, p.next, p.hash, p.lz, p.lz.codeBuf, p.lz.litCounts, p.lz.distCounts
      ensures p.since == old(p.since) && p.sinceBlock == old(p.sinceBlock)
      ensures CutFrom(p.options, |old(parts)|, |parts|, parts, p.blocks, p.closed)
      ensures old(p.Turns()) <= p.Turns() && FarSighted(p.Turns(), |old(p.Turns())|, p.since, |old(p.history)| + |src|)
      ensures Valid() && used <= |src| && p.history == old(p.history) + src[..used]
      ensures !pending ==> used == |src| && (flush ==> p.lookaheadSize == 0)
      ensures takesAll ==> !pending
    {
      hide Deflater.Valid, CutFrom, FarSighted, Compressor.Turns;
      used, pending := 0, false;
      CutStarts();
      SightStarts(p.Turns(), p.since, |p.history| + |src|);
      assert src[..0] == [];
      while used < |src| || (flush && p.lookaheadSize > 0)
        invariant Valid() && used <= |src| && p.history == old(p.history) + src[..used]
        invariant p.since == old(p.since) && p.sinceBlock == old(p.sinceBlock)
        invariant |old(parts)| <= |parts| && CutFrom(p.options, |old(parts)|, |parts|, parts, p.blocks, p.closed)
        invariant old(p.Turns()) <= p.Turns() && FarSighted(p.Turns(), |old(p.Turns())|, p.since, |old(p.history)| + |src|)
        decreases |src| - used + p.lookaheadSize
      {
        var from := used;
        used := FillMore(src, from);
        assert src[..from] + src[from..used] == src[..used];
        if !flush && p.lookaheadSize < MAX_MATCH_LEN {
          break;
        }
        ghost var turns := p.Turns();
        var status;
        ghost var turn;
        status, turn := DecideOne(|old(parts)|);
        SightOne(turns, |old(p.Turns())|, p.since, |old(p.history)| + |src|, turn);
        pending := status == Pending;
        if pending {
          return;
        }
      }
    }

    /** Fills the lookahead. */
    method FillMore(src: seq<Byte>, from: nat) returns (used: nat)
      requires Valid() && from <= |src|
      modifies p, p.dict, p.next, p.hash
      ensures Valid() && from <= used <= |src| && (p.lookaheadSize == MAX_MATCH_LEN || used == |src|)
      ensures used + old(p.lookaheadSize) == from + p.lookaheadSize && p.lookaheadSize <= MAX_MATCH_LEN
      ensures p.history == old(p.history) + src[from..used] && p.since == old(p.since) && p.sinceBlock == old(p.sinceBlock)
      ensures p.Turns() == old(p.Turns()) && p.blocks == old(p.blocks) && p.closed == old(p.closed)
    {
      hide Compressor.SavedAt, Compressor.CodesReach, LzBuffer.Valid, WriterState, Stream, Flatten, Padding,
        CodedFrom, Compressor.ChainsOk, Worth, AllRecorded, Parse, Compressor.SelfContained, Compressor.Traced;
      used := p.FillLookahead(src, from);
    }

    lemma CutStarts()
      requires Valid()
      ensures CutFrom(p.options, |parts|, |parts|, parts, p.blocks, p.closed)
    {
      hide BlockCut;
    }

    /** One call of the compressor. A completed flush leaves every byte in a block; a completed finish leaves a
        deflate stream of the whole input. */
    method Compress(src: seq<Byte>, flush: Flush) returns (used: nat, status: Status, ghost cut: nat)
      requires Valid()
      modifies this, w, p, p.dict, p.next, p.hash, p.lz, p.lz.codeBuf, p.lz.litCounts, p.lz.distCounts
      ensures used <= |src| && p.history == old(p.history) + src[..used]
      ensures flush != Finish ==> Valid()
      ensures old(p.Turns()) <= p.Turns() && FarSighted(p.Turns(), |old(p.Turns())|, old(p.since), |old(p.history)| + |src|)
      ensures CutFrom(p.options, |old(parts)|, cut, parts, p.blocks, p.closed)
      ensures flush == NoFlush ==> cut == |parts|
      ensures status == Delivered && flush != NoFlush ==>
                && |parts| == cut + (if flush == Finish then 1 else 2)
                && BlockCut(p.options, Width(Flatten(parts[..cut])), parts[cut], p.blocks[cut], p.closed[cut], true)
      ensures flush != FullFlush ==> p.since == old(p.since) && p.sinceBlock == old(p.sinceBlock)
      ensures status == Delivered && (flush == SyncFlush || flush == FullFlush) ==>
                w.bitsIn == 0 && Marked(w.out, w.fields) && |p.blocks| > 0 && p.blocks[|p.blocks| - 1] == Stored([])
      ensures status == Delivered && flush == FullFlush ==>
                p.dictSize == 0 && p.since == |p.history| && p.sinceBlock == |p.blocks|
      ensures status == Delivered && flush != NoFlush ==>
                && old(p.sinceBlock) <= |p.blocks| && old(p.since) <= |p.history| && DecodableBlocks(p.blocks[old(p.sinceBlock)..])
                && ExpandBlocks(p.blocks[old(p.sinceBlock)..]) == p.history[old(p.since)..]
      ensures status == Delivered ==> used == |src|
      ensures takesAll ==> status != Pending
      ensures status == Delivered && flush != NoFlush ==> DecodableBlocks(p.blocks) && ExpandBlocks(p.blocks) == p.history
      ensures status == Delivered && flush == Finish ==> DeflatedAs(w.out, p.history, parts, p.blocks)
      ensures status == Delivered && flush != NoFlush ==>
                && p.Turns() == AllTurns(p.closed)
                && Parse(p.options, p.maxProbes0, p.maxProbes1, p.history, p.Turns(), |p.history|, Saved(0, 0, 0))
    {
      hide Compressor.SavedAt, LzBuffer.Valid, WriterState, Flatten, Padding, Reach, DecodableBlocks, ExpandBlocks, DeflatedAs,
        Compressor.WindowOk, Compressor.ChainsOk, Marked, CutFrom, ChosenForm, Worth, Parse, AllRecorded, FarSighted, Width,
        Compressor.Turns, CodedFrom, Compressor.CodesReach, Compressor.SelfContained,
        Compressor.Traced;
      var pending;
      used, pending := CompressNormal(src, flush != NoFlush);
      status := if pending then Pending else Delivered;
      cut := |parts|;
      if flush != NoFlush && p.lookaheadSize == 0 && used == |src| && !pending {
        p.NothingSavedAtTheEnd();
        SettledAtTheEnd();
        FullIsWorth();
        AllParsed();
        ghost var block, parts0, blocks0, closed0 := *, parts, p.blocks, p.closed;
        status, block := FlushBlock(flush);
        CutGrows(p.options, |old(parts)|, cut, parts0, blocks0, closed0, parts, p.blocks, p.closed);
        assert parts[..cut] == parts0;
        assert p.Turns() == AllTurns(p.closed) by {
          AllIsClosed();
        }
        AllExpanded();
        if flush == FullFlush {
          p.Forget();
        }
        if flush == Finish && status == Delivered {
          StreamComplete(w.limit, w.out, w.bitBuffer, parts, p.blocks, p.history);
        }
      }
    }

    /** With nothing recorded the blocks are everything, and those since the last full flush everything since. */
    lemma AllExpanded()
      requires p.Valid() && p.lookaheadSize == 0 && p.blockStart == p.CodedTo()
      ensures DecodableBlocks(p.blocks) && ExpandBlocks(p.blocks) == p.history
      ensures p.sinceBlock <= |p.blocks| && p.since <= |p.history| && DecodableBlocks(p.blocks[p.sinceBlock..])
      ensures ExpandBlocks(p.blocks[p.sinceBlock..]) == p.history[p.since..]
    {
      hide DecodableBlocks, ExpandBlocks, Reach, LzBuffer.Valid, Parse, AllRecorded, Compressor.ChainsOk;
      p.NothingSavedAtTheEnd();
      assert p.history[..p.blockStart] == p.history && p.history[p.since..p.blockStart] == p.history[p.since..];
    }

    /** The turns lead to the end of the history. */
    lemma AllParsed()
      requires p.Steady() && p.lookaheadSize == 0
      ensures Parse(p.options, p.maxProbes0, p.maxProbes1, p.history, p.Turns(), |p.history|, Saved(0, 0, 0))
      ensures p.lz.codes == AllRecorded(p.options, p.open) && |p.closed| == |p.blocks|
    {
      hide DecodableBlocks, ExpandBlocks, Reach, LzBuffer.Valid, Parse, AllRecorded, Compressor.ChainsOk, CodedFrom;
      p.NothingSavedAtTheEnd();
      ParseEnds(p.options, p.maxProbes0, p.maxProbes1, p.history, p.Turns(), |p.history|, p.Waiting());
    }

    lemma AllIsClosed()
      requires p.open == []
      ensures p.Turns() == AllTurns(p.closed)
    {
    }

    /** At the end of the input the last decision reached to the end of what is known. */
    lemma SettledAtTheEnd()
      requires p.Steady() && p.lookaheadSize == 0
      ensures Settled()
    {
      hide Reach, Decodable, ChosenAt, DecodableBlocks, ExpandBlocks, CodedFrom;
      p.NothingSavedAtTheEnd();
      if p.open != [] {
        assert (AllTurns(p.closed) + p.open)[|AllTurns(p.closed) + p.open| - 1] == p.open[|p.open| - 1];
      }
    }
  }

  lemma SightStarts(turns: seq<Turn>, since: nat, given: nat)
    ensures FarSighted(turns, |turns|, since, given)
  {
  }

  lemma SightOne(turns: seq<Turn>, first: nat, since: nat, given: nat, t: Turn)
    requires FarSighted(turns, first, since, given)
    requires t.since == since && (t.look == MAX_MATCH_LEN || t.at + t.look == given)
    ensures FarSighted(turns + [t], first, since, given)
  {
  }

  /** One more turn, after turns that did not complete a block. */
  lemma EarlyOne(o: Options, open: seq<Turn>, t: Turn)
    requires Early(o, open) && !Worth(o, AllRecorded(o, open))
    ensures Early(o, open + [t])
  {
    hide Worth, AllRecorded;
    forall k | 0 <= k < |open + [t]|
      ensures !Worth(o, AllRecorded(o, (open + [t])[..k]))
    {
      assert (open + [t])[..k] == if k < |open| then open[..k] else open;
    }
  }

  /** A finished stream with nothing left in the bit buffer is all in the output. */
  lemma {:induction false} StreamComplete(limit: nat, out: seq<Byte>, bitBuffer: nat, parts: seq<seq<Field>>, blocks: seq<Block>, data: seq<Byte>)
    requires WriterState(limit, out, bitBuffer, 0, Flatten(parts) + Padding(Width(Flatten(parts)))) && |out| < limit
    requires Stream(parts, blocks, true) && DecodableBlocks(blocks) && ExpandBlocks(blocks) == data
    ensures DeflatedAs(out, data, parts, blocks)
  {
    hide WriterState, Stream, Flatten, Packed, Width, Number, Padding, Missing, DecodableBlocks, ExpandBlocks, FieldsOk;
    BytesComplete(limit, out, bitBuffer, Flatten(parts));
  }

  /** The stream is a deflate stream, and what lazy parsing makes of the data. */
  lemma {:induction false} StreamIsCompressed(o: Options, probes0: nat, probes1: nat, out: seq<Byte>, data: seq<Byte>,
                                              parts: seq<seq<Field>>, blocks: seq<Block>, closed: seq<seq<Turn>>)
    requires CompressedAs(o, probes0, probes1, out, data, parts, blocks, closed)
    ensures Deflated(out, data) && Compressed(o, probes0, probes1, out, data)
  {
    assert DeflatedAs(out, data, parts, blocks);
    hide DeflatedAs, CompressedAs;
  }

  /** The whole bytes spell the fields; the padding adds nothing. */
  lemma {:induction false} BytesComplete(limit: nat, out: seq<Byte>, bitBuffer: nat, fs: seq<Field>)
    requires WriterState(limit, out, bitBuffer, 0, fs + Padding(Width(fs))) && |out| < limit
    ensures FieldsOk(fs) && Number(out) == Packed(fs) && 8 * |out| == Width(fs) + Missing(Width(fs))
  {
    var pad := Padding(Width(fs));
    assert FieldsOk(fs) by {
      assert forall i | 0 <= i < |fs| :: (fs + pad)[i] == fs[i];
    }
    PaddingWidth(Width(fs));
    PaddingSpellsNothing(Width(fs));
    Concat(fs, pad);
    assert Pow2(0) == 1;
    hide Packed, Width, Number, Padding, Pow2, FieldsOk;
  }

  lemma {:induction false} PaddingSpellsNothing(at: nat)
    ensures Packed(Padding(at)) == 0
  {
    if Missing(at) > 0 {
      OneField(Field(0, Missing(at)));
    }
  }

  /** Compressing a whole buffer at once into memory that grows as needed: whatever the data and the options, the
      output is a deflate stream of the data, and it is what lazy parsing with these options makes of them. */
  method CompressMemory(data: seq<Byte>, options: Options, probes: nat) returns (out: seq<Byte>)
    requires probes < 4096
    ensures Deflated(out, data)
    ensures Compressed(options, 1 + (probes + 2) / 3, 1 + (probes / 4 + 2) / 3, out, data)
  {
    hide Deflated, Deflater.Valid, DeflatedAs, Compressed, Parse, BlockCut, Flatten, Width, AllTurns;
    var d := new Deflater(options, probes, true);
    ghost var cut;
    var used, status;
    used, status, cut := d.Compress(data, Finish);
    out := d.w.out;
    assert [] + data[..used] == data;
    StreamIsCompressed(options, d.p.maxProbes0, d.p.maxProbes1, out, data, d.parts, d.p.blocks, d.p.closed);
  }
}
