/** The decompressor over a whole stream: stored and compressed blocks until the final one. */
module InflateStream {
  import opened Powers
  import opened LzCodes
  import opened BitStream
  import opened DeflateSymbols
  import opened DeflateStream
  import opened DeflateFormat
  import opened InflateReader
  import opened InflateExact
  import opened InflateCompressedBlock

  /** Reads a 16-bit number, lower byte first. */
  method ReadWord(src: Source) returns (r: Read<nat>)
    ensures r == TakeBits(src, 16)
  {
    TwoBytes(src.bits);
    SmallPowers();
    Sixteen();
    hide Pow2;
    var low := TakeBits(src, 8);
    if !low.Read? {
      return Rejected;
    }
    var high := TakeBits(low.left, 8);
    r := if high.Read? then Read(low.value + 256 * high.value, high.left) else Rejected;
  }

  lemma {:induction false} TwoBytes(x: nat)
    ensures x % Pow2(8) + 256 * (x / Pow2(8) % Pow2(8)) == x % Pow2(16)
    ensures x / Pow2(8) / Pow2(8) == x / Pow2(16)
  {
    Pow2Values();
    hide Pow2;
    assert 0x10000 == 256 * 256;
  }

  /** Copies `count` bytes of the stream. */
  method ReadBytes(src: Source, count: nat, out: seq<Byte>) returns (r: Read<seq<Byte>>)
    requires src.used <= src.end
    ensures r == TakeBytes(src, count, out)
  {
    hide TakeBits, Pow2;
    SmallPowers();
    var left, grown: seq<Byte>, counter := src, out, count;
    while counter > 0
      invariant 0 <= counter && left.used <= left.end
      invariant TakeBytes(src, count, out) == TakeBytes(left, counter, grown)
    {
      var b := TakeBits(left, 8);
      if !b.Read? {
        return if b.Rejected? then Rejected else Unknown;
      }
      left, grown, counter := b.left, grown + [b.value], counter - 1;
    }
    r := Read(grown, left);
  }

  /** Reads a stored block, after the bits that tell its type. */
  method InflateStored(src: Source, out: seq<Byte>) returns (r: Read<seq<Byte>>)
    ensures r == TakeStored(src, out)
  {
    hide TakeBits, TakeBytes, Missing;
    var padding := TakeBits(src, Missing(src.used));
    if !padding.Read? {
      return if padding.Rejected? then Rejected else Unknown;
    }
    var len := ReadWord(padding.left);
    if !len.Read? {
      return if len.Rejected? then Rejected else Unknown;
    }
    var nlen := ReadWord(len.left);
    if !nlen.Read? {
      return if nlen.Rejected? then Rejected else Unknown;
    }
    if len.value != 0xFFFF - nlen.value {
      return Rejected;
    }
    r := ReadBytes(nlen.left, len.value, out);
  }

  /** Reads one block. */
  method InflateBlock(src: Source, out: seq<Byte>) returns (r: Read<Progress>)
    ensures r == TakeBlock(src, out)
    ensures r.Read? ==> exists b :: BlockAhead(src, b, r.value.last, out, r.left) && r.value.out == BlockYield(b, out)
    ensures forall b, last, left :: BlockAhead(src, b, last, out, left) ==> r == Read(Progress(last, BlockYield(b, out)), left)
  {
    hide TakeBits, TakeStored, TakeHeader, TakeCodes, BlockAhead, BlockYield;
    BlockExactly(src, out);
    var header := TakeBits(src, 3);
    if !header.Read? {
      return if header.Rejected? then Rejected else Unknown;
    }
    var last, kind := header.value % 2 == 1, header.value / 2;
    var body;
    if kind == 0 {
      body := InflateStored(header.left, out);
    } else if kind == 3 {
      return Rejected;
    } else {
      SmallPowers();
      body := InflateCompressed(kind, header.left, out);
    }
    r := if body.Read? then Read(Progress(last, body.value), body.left) else if body.Rejected? then Rejected else Unknown;
  }

  /** Reads blocks until the final one. */
  method Inflate(src: Source) returns (r: Read<seq<Byte>>)
    ensures r == TakeBlocks(src, [])
    ensures r.Read? ==> exists bs :: BlocksAhead(src, bs, [], r.left) && r.value == StreamYield(bs, [])
    ensures forall bs, left :: BlocksAhead(src, bs, [], left) ==> r == Read(StreamYield(bs, []), left)
  {
    hide TakeBlock, BlocksAhead, StreamYield;
    BlocksExactly(src, []);
    var left, out := src, [];
    while true
      invariant TakeBlocks(src, []) == TakeBlocks(left, out)
      decreases ToEnd(left)
    {
      var block := InflateBlock(left, out);
      if !block.Read? {
        return if block.Rejected? then Rejected else Unknown;
      }
      if block.value.last {
        return Read(block.value.out, block.left);
      }
      left, out := block.left, block.value.out;
    }
  }

  /** Decompressing any bytes gives `data` if and only if they begin with a deflate stream of `data`. */
  method DecompressMemory(bytes: seq<Byte>) returns (r: Read<seq<Byte>>)
    ensures r == Taken(bytes)
    ensures forall data: seq<Byte> :: Readable(bytes, data) <==> r.Read? && r.value == data
  {
    hide Readable, TakeBlocks;
    r := Inflate(StreamOf(bytes));
    forall data: seq<Byte>
      ensures Readable(bytes, data) <==> r.Read? && r.value == data
    {
      TakenExactly(bytes, data);
    }
  }
}
