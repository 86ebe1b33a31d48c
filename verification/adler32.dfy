/** The checksum of zlib streams (RFC 1950, section 8.2), with the reduction put off to the end of each block. */
module Adler32 {
  import opened ByteValues

  const BASE: nat := 65521
  const BLOCK: nat := 5552

  /** Two 16-bit sums. */
  datatype Sums = Sums(a: nat, b: nat)

  ghost predicate SumsOk(s: Sums) {
    s.a < 0x1_0000 && s.b < 0x1_0000
  }

  function Unpacked(adler: nat): (s: Sums) {
    Sums(adler % 0x1_0000, adler / 0x1_0000)
  }

  function Packed(s: Sums): nat {
    s.b * 0x1_0000 + s.a
  }

  function Reduced(x: nat): nat {
    x % BASE
  }

  /** The definition: both sums are reduced for every byte. */
  function Checksum(s: Sums, data: seq<Byte>): Sums {
    if data == [] then s
    else
      var before := Checksum(s, data[..|data| - 1]);
      var a := Reduced(before.a + data[|data| - 1]);
      Sums(a, Reduced(before.b + a))
  }

  lemma {:induction false} ChecksumOk(s: Sums, data: seq<Byte>)
    requires SumsOk(s)
    ensures SumsOk(Checksum(s, data))
    ensures data != [] ==> Checksum(s, data).a < BASE && Checksum(s, data).b < BASE
  {
  }

  /** The checksum of two pieces is the checksum of the second, continued from that of the first. */
  lemma {:induction false} ChecksumConcat(s: Sums, x: seq<Byte>, y: seq<Byte>)
    ensures Checksum(s, x + y) == Checksum(Checksum(s, x), y)
  {
    if y == [] {
      assert x + y == x;
    } else {
      ChecksumConcat(s, x, y[..|y| - 1]);
      assert (x + y)[..|x + y| - 1] == x + y[..|y| - 1];
    }
  }

  lemma PackedUnpacked(s: Sums)
    requires SumsOk(s)
    ensures Unpacked(Packed(s)) == s
  {
  }

  /** Continuing from the packed checksum of a beginning gives the packed checksum of the whole. */
  lemma Continued(adler: nat, x: seq<Byte>, y: seq<Byte>)
    requires adler < 0x1_0000_0000
    ensures
      var beginning := Packed(Checksum(Unpacked(adler), x));
      Packed(Checksum(Unpacked(beginning), y)) == Packed(Checksum(Unpacked(adler), x + y))
  {
    hide Checksum;
    ChecksumOk(Unpacked(adler), x);
    PackedUnpacked(Checksum(Unpacked(adler), x));
    ChecksumConcat(Unpacked(adler), x, y);
  }

  /** The most that the second sum can reach after so many bytes from sums up to `start`. */
  function Ceiling(start: nat, count: nat): (r: nat)
    ensures 2 * r == 2 * start * (count + 1) + 255 * count * (count + 1)
  {
    if count == 0 then start else Ceiling(start, count - 1) + start + 255 * count
  }

  /** A block of 5552 bytes from reduced sums, or a shorter one from any 16-bit sums, stays below 2^32. */
  lemma {:induction false} NeverWraps(start: nat, count: nat)
    requires (start < BASE && count <= BLOCK) || (start < 0x1_0000 && count < BLOCK)
    ensures start + 255 * count < 0x1_0000_0000 && Ceiling(start, count) < 0x1_0000_0000
  {
    var most: nat := if start < BASE then BLOCK else BLOCK - 1;
    CeilingGrows(start, count, most);
    assert 2 * start * (most + 1) <= 2 * (if start < BASE then 65520 else 65535) * (most + 1);
  }

  lemma {:induction false} CeilingGrows(start: nat, count: nat, most: nat)
    requires count <= most
    ensures Ceiling(start, count) <= Ceiling(start, most)
    decreases most - count
  {
    if count < most {
      CeilingGrows(start, count, most - 1);
    }
  }

  /** 5552 is the largest block length whose ceiling stays below 2^32. */
  lemma BlockIsLargest()
    ensures Ceiling(BASE - 1, BLOCK) < 0x1_0000_0000 <= Ceiling(BASE - 1, BLOCK + 1)
  {
    hide Ceiling;
    assert 2 * Ceiling(BASE - 1, BLOCK) == 2 * 65520 * 5553 + 255 * 5552 * 5553;
    assert 2 * Ceiling(BASE - 1, BLOCK + 1) == 2 * 65520 * 5554 + 255 * 5553 * 5554;
  }

  /** The put-off sums agree with the definition up to multiples of the base, and are below their ceilings. */
  ghost predicate Deferred(s: Sums, data: seq<Byte>, pos: nat, start: nat, count: nat, s1: nat, s2: nat) {
    && pos <= |data|
    && Reduced(s1) == Reduced(Checksum(s, data[..pos]).a) && Reduced(s2) == Reduced(Checksum(s, data[..pos]).b)
    && s1 <= start + 255 * count && s2 <= Ceiling(start, count)
  }

  lemma DeferredStep(s: Sums, data: seq<Byte>, pos: nat, start: nat, count: nat, s1: nat, s2: nat)
    requires Deferred(s, data, pos, start, count, s1, s2) && pos < |data|
    ensures Deferred(s, data, pos + 1, start, count + 1, s1 + data[pos], s2 + (s1 + data[pos]))
  {
    hide Ceiling, Reduced, Checksum;
    var before, byte := Checksum(s, data[..pos]), data[pos];
    var a := Reduced(before.a + byte);
    ChecksumStep(s, data, pos);
    SameReduced(s1, before.a, byte);
    SameReduced(s2, before.b, s1 + byte);
    ReducedSum(before.b, s1 + byte);
    ReducedTwice(before.b + a);
    ReducedTwice(before.a + byte);
    CeilingStep(start, count);
  }

  lemma ChecksumStep(s: Sums, data: seq<Byte>, pos: nat)
    requires pos < |data|
    ensures
      var before := Checksum(s, data[..pos]);
      var a := Reduced(before.a + data[pos]);
      Checksum(s, data[..pos + 1]) == Sums(a, Reduced(before.b + a))
  {
    assert data[..pos + 1][..pos] == data[..pos];
  }

  lemma CeilingStep(start: nat, count: nat)
    ensures Ceiling(start, count + 1) == Ceiling(start, count) + start + 255 * (count + 1)
  {
  }

  lemma SameReduced(x: nat, y: nat, z: nat)
    requires Reduced(x) == Reduced(y)
    ensures Reduced(x + z) == Reduced(y + z)
  {
    ReducedSum(z, x);
    ReducedSum(z, y);
  }

  lemma ReducedSum(x: nat, y: nat)
    ensures Reduced(x + y) == Reduced(x + Reduced(y))
  {
    var q: nat := y / BASE;
    assert x + y == (x + y % BASE) + BASE * q;
  }

  lemma ReducedTwice(x: nat)
    ensures Reduced(Reduced(x)) == Reduced(x) < BASE
  {
  }

  /** Adds one byte to 32-bit sums. */
  method AddByte(s1: nat, s2: nat, byte: Byte) returns (r1: nat, r2: nat)
    ensures r1 == (s1 + byte) % 0x1_0000_0000 && r2 == (s2 + r1) % 0x1_0000_0000
    ensures s1 + byte < 0x1_0000_0000 && s2 + (s1 + byte) < 0x1_0000_0000 ==> r1 == s1 + byte && r2 == s2 + (s1 + byte)
  {
    r1 := (s1 + byte) % 0x1_0000_0000;
    r2 := (s2 + r1) % 0x1_0000_0000;
  }

  /** One byte of a block that is not over: nothing wraps around, and the sums stay in step with the definition. */
  method NextByte(s1: nat, s2: nat, data: seq<Byte>, pos: nat, ghost s: Sums, ghost start: nat, ghost count: nat)
      returns (r1: nat, r2: nat)
    requires pos < |data| && Deferred(s, data, pos, start, count, s1, s2)
    requires (start < BASE && count < BLOCK) || (start < 0x1_0000 && count + 1 < BLOCK)
    ensures Deferred(s, data, pos + 1, start, count + 1, r1, r2)
  {
    hide Deferred, Ceiling, Checksum, Reduced;
    DeferredStep(s, data, pos, start, count, s1, s2);
    NeverWraps(start, count + 1);
    DeferredBounds(s, data, pos + 1, start, count + 1, s1 + data[pos], s2 + (s1 + data[pos]));
    r1, r2 := AddByte(s1, s2, data[pos]);
  }

  lemma DeferredBounds(s: Sums, data: seq<Byte>, pos: nat, start: nat, count: nat, s1: nat, s2: nat)
    requires Deferred(s, data, pos, start, count, s1, s2)
    ensures s1 <= start + 255 * count && s2 <= Ceiling(start, count)
  {
  }

  /** One block, eight bytes at a time and then one by one, without reducing. */
  method Block(first: nat, second: nat, data: seq<Byte>, pos: nat, blockLen: nat, ghost s: Sums, ghost start: nat)
      returns (s1: nat, s2: nat)
    requires pos + blockLen <= |data| && Deferred(s, data, pos, start, 0, first, second)
    requires (start < BASE && blockLen <= BLOCK) || (start < 0x1_0000 && blockLen < BLOCK)
    ensures Deferred(s, data, pos + blockLen, start, blockLen, s1, s2)
  {
    hide Deferred;
    s1, s2 := first, second;
    var i: nat := 0;
    while i + 7 < blockLen
      invariant i <= blockLen && Deferred(s, data, pos + i, start, i, s1, s2)
    {
      s1, s2 := NextByte(s1, s2, data, pos + i, s, start, i);
      s1, s2 := NextByte(s1, s2, data, pos + i + 1, s, start, i + 1);
      s1, s2 := NextByte(s1, s2, data, pos + i + 2, s, start, i + 2);
      s1, s2 := NextByte(s1, s2, data, pos + i + 3, s, start, i + 3);
      s1, s2 := NextByte(s1, s2, data, pos + i + 4, s, start, i + 4);
      s1, s2 := NextByte(s1, s2, data, pos + i + 5, s, start, i + 5);
      s1, s2 := NextByte(s1, s2, data, pos + i + 6, s, start, i + 6);
      s1, s2 := NextByte(s1, s2, data, pos + i + 7, s, start, i + 7);
      i := i + 8;
    }
    while i < blockLen
      invariant i <= blockLen && Deferred(s, data, pos + i, start, i, s1, s2)
    {
      s1, s2 := NextByte(s1, s2, data, pos + i, s, start, i);
      i := i + 1;
    }
  }

  lemma NothingDeferred(s: Sums, data: seq<Byte>)
    requires SumsOk(s)
    ensures Deferred(s, data, 0, 0xFFFF, 0, s.a, s.b)
    ensures data == [] ==> Checksum(s, data) == s
  {
  }

  /** Reducing at the end of a block; at the end of the data it gives the defined checksum. */
  lemma ReduceSums(s: Sums, data: seq<Byte>, pos: nat, start: nat, count: nat, s1: nat, s2: nat)
    requires SumsOk(s) && data != [] && Deferred(s, data, pos, start, count, s1, s2)
    ensures Deferred(s, data, pos, BASE - 1, 0, s1 % BASE, s2 % BASE)
    ensures pos == |data| ==> Sums(s1 % BASE, s2 % BASE) == Checksum(s, data)
  {
    hide Checksum, Reduced;
    ReducedIs(s1);
    ReducedIs(s2);
    ReducedTwice(s1);
    ReducedTwice(s2);
    if pos == |data| {
      assert data[..pos] == data;
      ChecksumOk(s, data);
      ReducedIs(Checksum(s, data).a);
      ReducedIs(Checksum(s, data).b);
    }
  }

  lemma ReducedIs(x: nat)
    ensures Reduced(x) == x % BASE && (x < BASE ==> Reduced(x) == x)
  {
  }

  datatype Input = NoData | Data(bytes: seq<Byte>)

  /** The checksum of the bytes, continued from any earlier checksum; without data, the checksum of nothing. */
  method Update(adler: nat, input: Input) returns (r: nat)
    requires adler < 0x1_0000_0000
    ensures input.NoData? ==> r == 1
    ensures input.Data? ==> r == Packed(Checksum(Unpacked(adler), input.bytes))
    ensures r < 0x1_0000_0000
  {
    hide Deferred, Checksum, Reduced, Ceiling;
    if input.NoData? {
      return 1;
    }
    var data := input.bytes;
    ghost var s := Unpacked(adler);
    var s1: nat, s2: nat := adler % 0x1_0000, adler / 0x1_0000;
    var left: nat := |data|;
    var blockLen: nat := left % BLOCK;
    ghost var start: nat := 0xFFFF;
    NothingDeferred(s, data);
    while left > 0
      invariant left <= |data| && (left > 0 ==> blockLen <= left && (left - blockLen) % BLOCK == 0)
      invariant (start == BASE - 1 && blockLen == BLOCK) || (start == 0xFFFF && blockLen < BLOCK)
      invariant Deferred(s, data, |data| - left, start, 0, s1, s2)
      invariant left == 0 ==> Sums(s1, s2) == Checksum(s, data)
      decreases left, if start == 0xFFFF then 1 else 0
    {
      var pos: nat := |data| - left;
      s1, s2 := Block(s1, s2, data, pos, blockLen, s, start);
      ReduceSums(s, data, pos + blockLen, start, blockLen, s1, s2);
      s1, s2 := s1 % BASE, s2 % BASE;
      left := left - blockLen;
      blockLen := BLOCK;
      start := BASE - 1;
    }
    ChecksumOk(s, data);
    r := s2 * 0x1_0000 + s1;
  }

  /** A word, and a byte with which both sums reach the modulus: the first becomes zero, the second stays below it. */
  method Examples() returns (word: nat, edge: nat)
    ensures word == 0x11E6_0398 && edge == 0xFFF0_0000
  {
    hide Checksum, Reduced;
    var text: seq<Byte> := [87, 105, 107, 105, 112, 101, 100, 105, 97];
    WordSums(text);
    EdgeSums();
    word := Update(1, Data(text));
    edge := Update(0xFFF0_FFF0, Data([1]));
  }

  lemma {:induction false} WordSums(text: seq<Byte>)
    requires text == [87, 105, 107, 105, 112, 101, 100, 105, 97]
    ensures Checksum(Unpacked(1), text) == Sums(0x398, 0x11E6)
  {
    hide Checksum;
    var s := Sums(1, 0);
    NoByte(s);
    assert text[..0] == [] && text[..9] == text;
    SumsAfter(s, text, 0, Sums(1, 0), Sums(88, 88));
    SumsAfter(s, text, 1, Sums(88, 88), Sums(193, 281));
    SumsAfter(s, text, 2, Sums(193, 281), Sums(300, 581));
    SumsAfter(s, text, 3, Sums(300, 581), Sums(405, 986));
    SumsAfter(s, text, 4, Sums(405, 986), Sums(517, 1503));
    SumsAfter(s, text, 5, Sums(517, 1503), Sums(618, 2121));
    SumsAfter(s, text, 6, Sums(618, 2121), Sums(718, 2839));
    SumsAfter(s, text, 7, Sums(718, 2839), Sums(823, 3662));
    SumsAfter(s, text, 8, Sums(823, 3662), Sums(920, 4582));
  }

  lemma {:induction false} EdgeSums()
    ensures Checksum(Unpacked(0xFFF0_FFF0), [1]) == Sums(0, 65520)
  {
    hide Checksum;
    var s := Sums(0xFFF0, 0xFFF0);
    NoByte(s);
    assert [1][..0] == [] && [1][..1] == [1];
    SumsAfter(s, [1], 0, s, Sums(0, 0xFFF0));
  }

  lemma NoByte(s: Sums)
    ensures Checksum(s, []) == s
  {
  }

  lemma {:induction false} SumsAfter(s: Sums, data: seq<Byte>, i: nat, before: Sums, after: Sums)
    requires i < |data| && Checksum(s, data[..i]) == before
    requires after.a == (before.a + data[i]) % 65521 && after.b == (before.b + after.a) % 65521
    ensures Checksum(s, data[..i + 1]) == after
  {
    assert data[..i + 1][..i] == data[..i];
  }
}
