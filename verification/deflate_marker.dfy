/** The empty stored block that ends a flush, as bytes of the output. */
module DeflateMarker {
  import opened Powers
  import opened Bits
  import opened LzCodes
  import opened BitStream
  import opened DeflateSymbols
  import opened DeflateStream

  /** The output is whole bytes, all fields are in it, and its last bytes are the lengths of an empty stored block. */
  ghost predicate Marked(out: seq<Byte>, fields: seq<Field>) {
    && Number(out) == Packed(fields) && 8 * |out| == Width(fields)
    && |out| >= 4 && out[|out| - 4..] == [0, 0, 0xFF, 0xFF]
  }

  lemma NumberOne(front: seq<Byte>, last: Byte)
    ensures Number(front + [last]) == Number(front) + last * Pow2(8 * |front|)
  {
    hide Pow2;
    assert (front + [last])[..|front|] == front;
  }

  /** The number of the bytes is that of the first ones, and above it that of the others. */
  lemma {:induction false} NumberSplit(out: seq<Byte>, n: nat)
    requires n <= |out|
    ensures Number(out) == Number(out[..n]) + Number(out[n..]) * Pow2(8 * n) && Number(out[..n]) < Pow2(8 * n)
    decreases |out| - n
  {
    hide Pow2, Number;
    if n == |out| {
      assert out[..n] == out && out[n..] == [];
      NumberBelow(out);
      NumberOfNone();
    } else {
      var front, last, more := out[..|out| - 1], out[|out| - 1], out[n..|out| - 1];
      NumberSplit(front, n);
      assert front[..n] == out[..n] && front[n..] == more && out[n..] == more + [last] && out == front + [last];
      NumberOne(front, last);
      NumberOne(more, last);
      Pow2Add(8 * |more|, 8 * n);
      assert 8 * |more| + 8 * n == 8 * |front|;
      Regrouped(Number(more), last, Pow2(8 * |more|), Pow2(8 * n));
    }
  }

  lemma Regrouped(a: int, b: int, p: int, q: int)
    ensures (a + b * p) * q == a * q + b * (p * q)
  {
  }

  lemma NumberOfNone()
    ensures Number([]) == 0
  {
  }

  lemma {:induction false} NumberBelow(out: seq<Byte>)
    ensures Number(out) < Pow2(8 * |out|)
  {
    if out == [] {
      NumberOfNone();
    } else {
      var front, last := out[..|out| - 1], out[|out| - 1];
      NumberBelow(front);
      SmallPowers();
      hide Pow2, Number;
      assert out == front + [last];
      NumberOne(front, last);
      BufferGrows(Number(front), 8 * |front|, last, 8);
      assert 8 * |front| + 8 == 8 * |out|;
    }
  }

  lemma {:induction false} PackedBelow(fs: seq<Field>)
    requires FieldsOk(fs)
    ensures Packed(fs) < Pow2(Width(fs))
  {
    if fs != [] {
      var front, f := fs[..|fs| - 1], fs[|fs| - 1];
      PackedBelow(front);
      hide Packed, FieldsOk;
      assert fs == front + [f];
      BufferGrows(Packed(front), Width(front), f.value, f.width);
      OneMoreField(front, f);
    }
  }

  /** Four bytes that spell 0xFFFF0000. */
  lemma {:induction false} FourBytes(four: seq<Byte>)
    requires |four| == 4 && Number(four) == 0xFFFF_0000
    ensures four == [0, 0, 0xFF, 0xFF]
  {
    SmallPowers();
    Pow2Values();
    assert Pow2(24) == 0x100_0000 by {
      Pow2Add(8, 16);
    }
    var a, b, c := four[..3], four[..2], four[..1];
    assert a[..2] == b && b[..1] == c && c[..0] == [];
    assert Number(c) == four[0] && Number(b) == four[0] as int + 256 * four[1] as int;
    assert Number(a) == four[0] as int + 256 * four[1] as int + 0x1_0000 * four[2] as int;
  }

  /** Bytes that spell fields which end with the marker's lengths end with its bytes. */
  lemma {:induction false} MarkerBytes(out: seq<Byte>, before: seq<Field>, fields: seq<Field>)
    requires FieldsOk(before) && fields == before + [Field(0, 16)] + [Field(0xFFFF, 16)]
    requires Number(out) == Packed(fields) && 8 * |out| == Width(fields)
    ensures Marked(out, fields)
  {
    Sixteen();
    OneMoreField(before, Field(0, 16));
    OneMoreField(before + [Field(0, 16)], Field(0xFFFF, 16));
    PackedBelow(before);
    hide Packed, Width, Number, FieldsOk, Pow2;
    var n := |out| - 4;
    assert 8 * n == Width(before);
    NumberSplit(out, n);
    Pow2Add(16, 8 * n);
    var p := Pow2(8 * n);
    assert 0xFFFF * (0x1_0000 * p) == 0xFFFF_0000 * p;
    DivModUnique(Number(out), p, Number(out[n..]), Number(out[..n]));
    DivModUnique(Number(out), p, 0xFFFF_0000, Packed(before));
    FourBytes(out[n..]);
  }

  /** An empty stored block ends with its two lengths, and on a whole byte. */
  lemma {:induction false} MarkerFields(before: seq<Field>) returns (front: seq<Field>)
    ensures before + StoredFields([], Width(before)) == front + [Field(0, 16)] + [Field(0xFFFF, 16)]
    ensures Width(before + StoredFields([], Width(before))) % 8 == 0
  {
    hide Width, Padding;
    var at := Width(before);
    front := before + [Field(0, 2)] + Padding(at + 2);
    assert before + StoredFields([], at) == front + [Field(0, 16)] + [Field(0xFFFF, 16)];
    OneMoreField(before, Field(0, 2));
    PaddingWidth(at + 2);
    WidthConcat(before + [Field(0, 2)], Padding(at + 2));
    OneMoreField(front, Field(0, 16));
    OneMoreField(front + [Field(0, 16)], Field(0xFFFF, 16));
  }
}
