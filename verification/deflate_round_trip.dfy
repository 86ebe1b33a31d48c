/** Compressing and decompressing a buffer. */
module DeflateRoundTrip {
  import opened ByteValues
  import opened LzParse
  import opened DeflateStream
  import opened DeflateFormat
  import opened DeflateReadable
  import opened DeflateCompress
  import opened InflateStream

  /** Every buffer comes back, whatever the options. */
  method ThereAndBack(data: seq<Byte>, options: Options, probes: nat) returns (restored: seq<Byte>)
    requires probes < 4096
    ensures restored == data
  {
    hide Deflated, Readable;
    var packed := CompressMemory(data, options, probes);
    DeflatedReadable(packed, data);
    var r := DecompressMemory(packed);
    restored := r.value;
  }
}
