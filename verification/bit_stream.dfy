/** Bit streams: a stream is the number its bits spell, first bit lowest. Writers put fields, readers take them. */
module BitStream {
  import opened Powers
  import opened Bits
  import opened LzCodes

  /** A value written in so many bits. */
  datatype Field = Field(value: nat, width: nat)

  ghost predicate FieldsOk(fs: seq<Field>) {
    forall i | 0 <= i < |fs| :: fs[i].value < Pow2(fs[i].width)
  }

  ghost function Width(fs: seq<Field>): nat {
    if fs == [] then 0 else Width(fs[..|fs| - 1]) + fs[|fs| - 1].width
  }

  /** The number the fields spell, the first field lowest. */
  ghost function Packed(fs: seq<Field>): nat {
    if fs == [] then 0 else Packed(fs[..|fs| - 1]) + fs[|fs| - 1].value * Pow2(Width(fs[..|fs| - 1]))
  }

  lemma {:induction false} OneMoreField(fs: seq<Field>, f: Field)
    ensures Width(fs + [f]) == Width(fs) + f.width
    ensures Packed(fs + [f]) == Packed(fs) + f.value * Pow2(Width(fs))
  {
    assert (fs + [f])[..|fs|] == fs;
  }

  lemma {:induction false} Concat(fs: seq<Field>, gs: seq<Field>)
    ensures Width(fs + gs) == Width(fs) + Width(gs)
    ensures Packed(fs + gs) == Packed(fs) + Packed(gs) * Pow2(Width(fs))
  {
    if gs == [] {
      assert fs + gs == fs;
    } else {
      var front, g := gs[..|gs| - 1], gs[|gs| - 1];
      Concat(fs, front);
      assert fs + gs == fs + front + [g];
      OneMoreField(fs + front, g);
      hide Packed, Width;
      Pow2Add(Width(front), Width(fs));
      Distribute(g.value, Pow2(Width(front)), Packed(front), Pow2(Width(fs)));
    }
  }

  /** A stream being read: the bits ahead, how many are used up, and how many there are in all. */
  datatype Source = Source(bits: nat, used: nat, end: nat)

  function Skip(src: Source, n: nat): Source {
    QuotientNonnegative(src.bits, Pow2(n));
    Source(src.bits / Pow2(n), src.used + n, src.end)
  }

  /** The source begins with the fields; what remains after them is `rest`. */
  ghost predicate Begins(src: Source, fs: seq<Field>, rest: Source) {
    FieldsOk(fs) && src.bits == Packed(fs) + rest.bits * Pow2(Width(fs)) 
    && rest.used == src.used + Width(fs) && rest.end == src.end
  }

  lemma {:induction false} BeginsNothing(src: Source, rest: Source)
    requires Begins(src, [], rest)
    ensures src == rest
  {
    assert Pow2(0) == 1;
  }

  /** Taking the first field off the stream. */
  lemma {:induction false} TakeField(src: Source, f: Field, fs: seq<Field>, rest: Source)
    requires Begins(src, [f] + fs, rest)
    ensures src.bits % Pow2(f.width) == f.value < Pow2(f.width)
    ensures Begins(Skip(src, f.width), fs, rest)
  {
    var all := [f] + fs;
    assert all[0] == f;
    assert FieldsOk(fs) by {
      forall i | 0 <= i < |fs|
        ensures fs[i].value < Pow2(fs[i].width)
      {
        assert all[i + 1] == fs[i];
      }
    }
    Concat([f], fs);
    OneField(f);
    hide Packed, Width, FieldsOk;
    var p, q := Pow2(f.width), Pow2(Width(fs));
    Pow2Add(Width(fs), f.width);
    var m := Packed(fs) + rest.bits * q;
    Distribute(rest.bits, q, Packed(fs), p);
    DivModUnique(src.bits, p, m, f.value);
  }

  /** A field in front of a stream. */
  lemma {:induction false} PutFront(src: Source, f: Field, fs: seq<Field>, rest: Source)
    requires Begins(src, fs, rest) && f.value < Pow2(f.width) && src.used >= f.width
    ensures Begins(Source(f.value + src.bits * Pow2(f.width), src.used - f.width, src.end), [f] + fs, rest)
  {
    FieldOk(f);
    ConcatOk([f], fs);
    Concat([f], fs);
    OneField(f);
    hide Packed, Width, FieldsOk;
    Pow2Add(Width(fs), f.width);
    Distribute(rest.bits, Pow2(Width(fs)), Packed(fs), Pow2(f.width));
  }

  lemma {:induction false} TakeParts(x: nat, p: nat)
    requires p > 0
    ensures x == x % p + x / p * p
  {
  }

  /** Two fields may be read as one. */
  lemma {:induction false} JoinFields(src: Source, f: Field, g: Field, fs: seq<Field>, rest: Source)
    requires Begins(src, [f] + ([g] + fs), rest)
    ensures Begins(src, [Field(f.value + g.value * Pow2(f.width), f.width + g.width)] + fs, rest)
  {
    hide Begins, Pow2;
    TakeField(src, f, [g] + fs, rest);
    var next := Skip(src, f.width);
    TakeField(next, g, fs, rest);
    var last := Skip(next, g.width);
    var p, q := Pow2(f.width), Pow2(g.width);
    TakeParts(src.bits, p);
    TakeParts(next.bits, q);
    Distribute(last.bits, q, g.value, p);
    Pow2Add(g.width, f.width);
    BufferGrows(f.value, f.width, g.value, g.width);
    PutFront(last, Field(f.value + g.value * p, f.width + g.width), fs, rest);
  }

  /** A source that begins with two runs of fields begins with the first, and then with the second. */
  lemma {:induction false} BeginsSplit(src: Source, fs: seq<Field>, gs: seq<Field>, rest: Source) returns (mid: Source)
    requires Begins(src, fs + gs, rest)
    ensures Begins(src, fs, mid) && Begins(mid, gs, rest) && mid.used == src.used + Width(fs)
  {
    PartsOk(fs, gs);
    Concat(fs, gs);
    hide Packed, Width, FieldsOk;
    mid := Source(Packed(gs) + rest.bits * Pow2(Width(gs)), src.used + Width(fs), src.end);
    Pow2Add(Width(gs), Width(fs));
    Distribute(rest.bits, Pow2(Width(gs)), Packed(gs), Pow2(Width(fs)));
  }

  lemma {:induction false} PartsOk(fs: seq<Field>, gs: seq<Field>)
    requires FieldsOk(fs + gs)
    ensures FieldsOk(fs) && FieldsOk(gs)
  {
    var all := fs + gs;
    assert forall i | 0 <= i < |fs| :: all[i] == fs[i];
    assert forall i | 0 <= i < |gs| :: all[|fs| + i] == gs[i];
    forall i | 0 <= i < |gs|
      ensures gs[i].value < Pow2(gs[i].width)
    {
      assert all[|fs| + i] == gs[i];
    }
  }

  lemma {:induction false} SplitValue(v: nat, rest: nat, m: nat, n: nat)
    requires v < Pow2(m + n)
    ensures v / Pow2(m) < Pow2(n)
    ensures v % Pow2(m) + (v / Pow2(m) + rest * Pow2(n)) * Pow2(m) == v + rest * Pow2(m + n)
  {
    hide *;
    Pow2Add(n, m);
    var p, q := Pow2(m), Pow2(n);
    var a, b := Euclid(v, p);
    CancelFactor(a, q, p);
    Distribute(rest, q, a, p);
  }

  /** One field may be read as two. */
  lemma {:induction false} SplitField(src: Source, v: nat, m: nat, n: nat, fs: seq<Field>, rest: Source)
    requires Begins(src, [Field(v, m + n)] + fs, rest)
    ensures Begins(src, [Field(v % Pow2(m), m)] + ([Field(v / Pow2(m), n)] + fs), rest)
  {
    hide Begins, Pow2;
    TakeField(src, Field(v, m + n), fs, rest);
    var last := Skip(src, m + n);
    TakeParts(src.bits, Pow2(m + n));
    SplitValue(v, last.bits, m, n);
    PutFront(last, Field(v / Pow2(m), n), fs, rest);
    PutFront(Source(v / Pow2(m) + last.bits * Pow2(n), src.used + m, src.end), Field(v % Pow2(m), m), [Field(v / Pow2(m), n)] + fs, rest);
  }

  lemma {:induction false} OneField(f: Field)
    ensures Width([f]) == f.width && Packed([f]) == f.value
  {
    assert [f][..0] == [];
    assert Pow2(0) == 1;
  }

  lemma {:induction false} FieldOk(f: Field)
    requires f.value < Pow2(f.width)
    ensures FieldsOk([f])
  {
  }

  lemma {:induction false} ConcatOk(fs: seq<Field>, gs: seq<Field>)
    requires FieldsOk(fs) && FieldsOk(gs)
    ensures FieldsOk(fs + gs)
  {
  }

  // ---------------------------------------------------------------- writing

  /** The number the bytes spell. */
  function Number(out: seq<Byte>): nat {
    if out == [] then 0 else Number(out[..|out| - 1]) + out[|out| - 1] * Pow2(8 * (|out| - 1))
  }

  /** The bytes as a stream. */
  function StreamOf(bytes: seq<Byte>): Source {
    Source(Number(bytes), 0, 8 * |bytes|)
  }

  /** Moving the lowest byte of the bit buffer to the output keeps the number. */
  lemma {:induction false} EmitByte(out: seq<Byte>, buffer: nat, b: Byte)
    requires b == buffer % 256
    ensures Number(out + [b]) + (buffer / 256) * Pow2(8 * |out + [b]|) == Number(out) + buffer * Pow2(8 * |out|)
  {
    assert (out + [b])[..|out|] == out;
    var p := Pow2(8 * |out|);
    Pow2Add(8, 8 * |out|);
    Pow2Values();
    assert Pow2(8 * |out| + 8) == 256 * p;
    var q, r := Euclid(buffer, 256);
    Distribute(q, 256, r, p);
  }

  lemma {:induction false} BufferShrinks(buffer: nat, bitsIn: nat)
    requires 8 <= bitsIn && buffer < Pow2(bitsIn)
    ensures buffer / 256 < Pow2(bitsIn - 8)
  {
    Pow2Add(bitsIn - 8, 8);
    Pow2Values();
    var q, r := Euclid(buffer, 256);
    var p := Pow2(bitsIn - 8);
    assert p * 256 == 256 * p;
    if q >= p {
      assert false;
    }
  }

  /** Adding bits above those in the buffer. */
  lemma {:induction false} BufferGrows(buffer: nat, bitsIn: nat, bits: nat, len: nat)
    requires buffer < Pow2(bitsIn) && bits < Pow2(len)
    ensures buffer + bits * Pow2(bitsIn) < Pow2(bitsIn + len)
  {
    Pow2Add(len, bitsIn);
    var p := Pow2(bitsIn);
    CancelFactor(bits + 1, Pow2(len), p);
    assert (bits + 1) * p == bits * p + p;
  }

  /** The output and the bit buffer hold `produced` whole bytes and some bits of the fields, unless the output
      is full. */
  ghost predicate Spelled(limit: nat, out: seq<Byte>, bitBuffer: nat, bitsIn: nat, fields: seq<Field>, produced: nat) {
    && 8 * produced + bitsIn == Width(fields)
    && |out| == (if produced < limit then produced else limit)
    && (|out| < limit ==> Number(out) + bitBuffer * Pow2(8 * |out|) == Packed(fields))
  }

  ghost predicate WriterState(limit: nat, out: seq<Byte>, bitBuffer: nat, bitsIn: nat, fields: seq<Field>) {
    && bitsIn < 8 && bitBuffer < Pow2(bitsIn) && FieldsOk(fields)
    && Spelled(limit, out, bitBuffer, bitsIn, fields, Width(fields) / 8)
  }

  class BitWriter {
    var limit: nat
    var out: seq<Byte>
    var bitBuffer: nat
    var bitsIn: nat
    ghost var fields: seq<Field>

    ghost predicate Valid()
      reads this
    {
      WriterState(limit, out, bitBuffer, bitsIn, fields)
    }

    constructor ()
      ensures Valid() && fields == [] && out == []
    {
      limit, out, bitBuffer, bitsIn, fields := 0, [], 0, 0, [];
      new;
      assert Pow2(0) == 1;
    }

    /** Makes room for `more` bytes. */
    method Extend(more: nat)
      requires Valid() && (|out| < limit || fields == [])
      modifies `limit
      ensures Valid() && limit == |out| + more
    {
      limit := |out| + more;
    }

    /** Goes back to an earlier state. */
    method Rewind(out0: seq<Byte>, bitBuffer0: nat, bitsIn0: nat, ghost fields0: seq<Field>)
      requires WriterState(limit, out0, bitBuffer0, bitsIn0, fields0)
      modifies `out, `bitBuffer, `bitsIn, `fields
      ensures Valid() && out == out0 && bitBuffer == bitBuffer0 && bitsIn == bitsIn0 && fields == fields0
    {
      out, bitBuffer, bitsIn, fields := out0, bitBuffer0, bitsIn0, fields0;
    }

    /** Moves whole bytes to the output; those beyond its end are dropped. */
    method EmitBytes(ghost produced: nat) returns (ghost total: nat)
      requires bitBuffer < Pow2(bitsIn) && Spelled(limit, out, bitBuffer, bitsIn, fields, produced)
      modifies `out, `bitBuffer, `bitsIn
      ensures bitsIn < 8 && bitBuffer < Pow2(bitsIn) && Spelled(limit, out, bitBuffer, bitsIn, fields, total)
    {
      hide Packed, Width, Number, Pow2;
      total := produced;
      while bitsIn >= 8
        invariant bitBuffer < Pow2(bitsIn) && Spelled(limit, out, bitBuffer, bitsIn, fields, total)
      {
        var b: Byte := bitBuffer % 256;
        EmitByte(out, bitBuffer, b);
        BufferShrinks(bitBuffer, bitsIn);
        if |out| < limit {
          out := out + [b];
        }
        bitBuffer := bitBuffer / 256;
        bitsIn := bitsIn - 8;
        total := total + 1;
      }
    }

    /** Writes the lowest `len` bits; bytes beyond the end of the output are dropped. */
    method PutBits(bits: nat, len: nat)
      requires Valid() && bits < Pow2(len) && len <= 16
      modifies `out, `bitBuffer, `bitsIn, `fields
      ensures Valid() && fields == old(fields) + [Field(bits, len)]
    {
      hide Packed, Width, Number, Pow2, FieldsOk, Spelled;
      ghost var f, produced: nat := Field(bits, len), Width(fields) / 8;
      FieldIntoBuffer(limit, out, bitBuffer, bitsIn, fields, bits, len);
      bitBuffer := bitBuffer + bits * Pow2(bitsIn);
      bitsIn := bitsIn + len;
      fields := fields + [f];
      ghost var total := EmitBytes(produced);
      AllProduced(limit, out, bitBuffer, bitsIn, fields, total);
    }
  }

  lemma FieldIntoBuffer(limit: nat, out: seq<Byte>, bitBuffer: nat, bitsIn: nat, fields: seq<Field>, bits: nat, len: nat)
    requires WriterState(limit, out, bitBuffer, bitsIn, fields) && bits < Pow2(len) && len <= 16
    ensures
      var more := fields + [Field(bits, len)];
      var buffer := bitBuffer + bits * Pow2(bitsIn);
      && FieldsOk(more) && buffer < Pow2(bitsIn + len)
      && Spelled(limit, out, buffer, bitsIn + len, more, Width(fields) / 8)
  {
    hide Packed, Width, Number, Pow2, FieldsOk;
    var f := Field(bits, len);
    FieldOk(f);
    OneMoreField(fields, f);
    ConcatOk(fields, [f]);
    BufferGrows(bitBuffer, bitsIn, bits, len);
    Pow2Add(bitsIn, 8 * |out|);
    Distribute(bits, Pow2(bitsIn), bitBuffer, Pow2(8 * |out|));
  }

  lemma AllProduced(limit: nat, out: seq<Byte>, bitBuffer: nat, bitsIn: nat, fields: seq<Field>, total: nat)
    requires bitsIn < 8 && Spelled(limit, out, bitBuffer, bitsIn, fields, total)
    ensures total == Width(fields) / 8
  {
    hide Packed, Width, Number, Pow2;
  }
}
