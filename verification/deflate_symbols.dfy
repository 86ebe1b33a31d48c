/** The length and distance symbols of DEFLATE (section 3.2.5 of RFC 1951): the compressor's lookup tables,
    given by their closed forms, and the decompressor's base and extra-bit tables. */
module DeflateSymbols {
  import opened Powers
  import opened Bits
  import opened LzCodes

  /** Extra bits for the match length `l + 3`. */
  function LenExtra(l: nat): (k: nat)
    requires l < 256
    ensures k <= 5
  {
    if l < 8 then 0 else if l < 16 then 1 else if l < 32 then 2 else if l < 64 then 3
    else if l < 128 then 4 else if l < 255 then 5 else 0
  }

  /** The symbol for the match length `l + 3`. */
  function LenSym(l: nat): (s: nat)
    requires l < 256
    ensures 257 <= s <= 285
  {
    if l < 8 then 257 + l else if l < 16 then 261 + l / 2 else if l < 32 then 265 + l / 4
    else if l < 64 then 269 + l / 8 else if l < 128 then 273 + l / 16 else if l < 255 then 277 + l / 32 else 285
  }

  /** Extra bits for the distance `d + 1` below 513. */
  function SmallDistExtra(d: nat): (k: nat)
    requires d < 512
    ensures k <= 7
  {
    if d < 4 then 0 else if d < 8 then 1 else if d < 16 then 2 else if d < 32 then 3
    else if d < 64 then 4 else if d < 128 then 5 else if d < 256 then 6 else 7
  }

  function SmallDistSym(d: nat): (s: nat)
    requires d < 512
    ensures s < 18
  {
    if d < 4 then d else if d < 8 then 2 + d / 2 else if d < 16 then 4 + d / 4 else if d < 32 then 6 + d / 8
    else if d < 64 then 8 + d / 16 else if d < 128 then 10 + d / 32 else if d < 256 then 12 + d / 64 else 14 + d / 128
  }

  /** The same for larger distances, by the upper bits `x` of `d`. */
  function LargeDistExtra(x: nat): (k: nat)
    requires x < 128
    ensures k <= 13
  {
    if x < 2 then 0 else if x < 4 then 8 else if x < 8 then 9 else if x < 16 then 10 else if x < 32 then 11
    else if x < 64 then 12 else 13
  }

  function LargeDistSym(x: nat): (s: nat)
    requires x < 128
    ensures s < 30
  {
    if x < 2 then 0 else if x < 4 then 16 + x else if x < 8 then 18 + x / 2 else if x < 16 then 20 + x / 4
    else if x < 32 then 22 + x / 8 else if x < 64 then 24 + x / 16 else 26 + x / 32
  }

  function DistExtra(d: nat): (k: nat)
    requires d < LZ_DICT_SIZE
    ensures k <= 13
  {
    if d < 512 then SmallDistExtra(d) else LargeDistExtra(d / 256)
  }

  function DistSym(d: nat): (s: nat)
    requires d < LZ_DICT_SIZE
    ensures s < 30
  {
    if d < 512 then SmallDistSym(d) else LargeDistSym(d / 256)
  }

  const LENGTH_BASE: seq<nat> :=
    [3, 4, 5, 6, 7, 8, 9, 10, 11, 13, 15, 17, 19, 23, 27, 31, 35, 43, 51, 59, 67, 83, 99, 115, 131, 163, 195, 227, 258, 0, 0]
  const LENGTH_EXTRA: seq<nat> :=
    [0, 0, 0, 0, 0, 0, 0, 0, 1, 1, 1, 1, 2, 2, 2, 2, 3, 3, 3, 3, 4, 4, 4, 4, 5, 5, 5, 5, 0, 0, 0]
  const DIST_BASE: seq<nat> :=
    [1, 2, 3, 4, 5, 7, 9, 13, 17, 25, 33, 49, 65, 97, 129, 193, 257, 385, 513, 769, 1025, 1537, 2049, 3073, 4097,
     6145, 8193, 12289, 16385, 24577, 0, 0]
  const DIST_EXTRA: seq<nat> :=
    [0, 0, 0, 0, 1, 1, 2, 2, 3, 3, 4, 4, 5, 5, 6, 6, 7, 7, 8, 8, 9, 9, 10, 10, 11, 11, 12, 12, 13, 13, 0, 0]

  function LengthBase(sym: nat): nat
    requires 257 <= sym < 288
  {
    LENGTH_BASE[sym - 257]
  }

  function LengthExtraBits(sym: nat): nat
    requires 257 <= sym < 288
  {
    LENGTH_EXTRA[sym - 257]
  }

  function DistBase(sym: nat): nat
    requires sym < 32
  {
    DIST_BASE[sym]
  }

  function DistExtraBits(sym: nat): nat
    requires sym < 32
  {
    DIST_EXTRA[sym]
  }

  lemma {:induction false} SmallPowers()
    ensures Pow2(0) == 1 && Pow2(1) == 2 && Pow2(2) == 4 && Pow2(3) == 8 && Pow2(4) == 16 && Pow2(5) == 32
    ensures Pow2(6) == 64 && Pow2(7) == 128 && Pow2(8) == 256 && Pow2(9) == 512 && Pow2(10) == 1024
    ensures Pow2(11) == 2048 && Pow2(12) == 4096 && Pow2(13) == 8192
  {
    Pow2Values();
  }

  /** The lengths start at 3; every symbol takes over where the one before ends, four symbols for each number of extra
      bits, and the last symbol stands for 258 alone. */
  lemma {:induction false} LengthTable(s: nat)
    requires 257 <= s <= 285
    ensures LengthExtraBits(s) == if s < 265 || s == 285 then 0 else (s - 261) / 4
    ensures LengthBase(257) == 3 && LengthBase(285) == 258
    ensures s < 284 ==> LengthBase(s + 1) == LengthBase(s) + Pow2(LengthExtraBits(s))
  {
    LengthExtras(s);
    SmallPowers();
    hide Pow2, LengthExtraBits;
  }

  lemma LengthExtras(s: nat)
    requires 257 <= s <= 285
    ensures LengthExtraBits(s) == if s < 265 || s == 285 then 0 else (s - 261) / 4
  {
  }

  /** The distances start at 1; two symbols for each number of extra bits. */
  lemma {:induction false} DistTable(d: nat)
    requires d < 30
    ensures DistExtraBits(d) == if d < 4 then 0 else d / 2 - 1
    ensures DistBase(0) == 1
    ensures d < 29 ==> DistBase(d + 1) == DistBase(d) + Pow2(DistExtraBits(d))
  {
    DistExtras(d);
    SmallPowers();
    hide Pow2, DistExtraBits;
  }

  lemma DistExtras(d: nat)
    requires d < 30
    ensures DistExtraBits(d) == if d < 4 then 0 else d / 2 - 1
  {
  }

  /** The compressor takes the last symbol that starts at the length or before it. */
  lemma {:induction false} LastLengthSymbol(l: nat)
    requires l < 256
    ensures LengthBase(LenSym(l)) <= l + 3 && (LenSym(l) < 285 ==> l + 3 < LengthBase(LenSym(l) + 1))
  {
  }

  /** Whatever the extra bits, the length and the distance are ones that the format can express. */
  lemma LengthInRange(s: nat, x: nat)
    requires 257 <= s <= 285 && x < Pow2(LengthExtraBits(s))
    ensures MIN_MATCH_LEN <= LengthBase(s) + x <= MAX_MATCH_LEN
  {
    SmallPowers();
  }

  lemma DistInRange(d: nat, x: nat)
    requires d < 30 && x < Pow2(DistExtraBits(d))
    ensures 1 <= DistBase(d) + x <= LZ_DICT_SIZE
  {
    SmallPowers();
  }

  /** The decompressor's base plus the extra bits the compressor sends is the match length. */
  lemma {:induction false} LengthRoundTrip(l: nat)
    requires l < 256
    ensures LengthExtraBits(LenSym(l)) == LenExtra(l)
    ensures LengthBase(LenSym(l)) + l % Pow2(LenExtra(l)) == l + 3
  {
    hide Pow2, LenSym, LenExtra, LengthBase, LengthExtraBits;
    if l < 64 {
      ShortLengthRoundTrip(l);
    } else {
      LongLengthRoundTrip(l);
    }
  }

  lemma ShortLengthRoundTrip(l: nat)
    requires l < 64
    ensures LengthExtraBits(LenSym(l)) == LenExtra(l)
    ensures LengthBase(LenSym(l)) + l % Pow2(LenExtra(l)) == l + 3
  {
    SmallPowers();
  }

  lemma LongLengthRoundTrip(l: nat)
    requires 64 <= l < 256
    ensures LengthExtraBits(LenSym(l)) == LenExtra(l)
    ensures LengthBase(LenSym(l)) + l % Pow2(LenExtra(l)) == l + 3
  {
    SmallPowers();
  }

  lemma {:induction false} ShortDistRoundTrip(d: nat)
    requires d < 512
    ensures DistExtraBits(SmallDistSym(d)) == SmallDistExtra(d)
    ensures DistBase(SmallDistSym(d)) + d % Pow2(SmallDistExtra(d)) == d + 1
  {
    SmallPowers();
    hide Pow2;
  }

  /** A larger distance, split into its upper bits `x` and its lowest byte. */
  lemma {:induction false} LongDistRoundTrip(x: nat, y: nat)
    requires 2 <= x < 128 && y < 256
    ensures DistExtraBits(LargeDistSym(x)) == LargeDistExtra(x)
    ensures DistBase(LargeDistSym(x)) + (x * 256 + y) % Pow2(LargeDistExtra(x)) == x * 256 + y + 1
  {
    SmallPowers();
    hide Pow2;
    if x < 8 {
      LowBits(x, y, 1);
      LowBits(x, y, 2);
    } else if x < 32 {
      LowBits(x, y, 4);
      LowBits(x, y, 8);
    } else {
      LowBits(x, y, 16);
      LowBits(x, y, 32);
    }
  }

  lemma {:induction false} LowBits(x: nat, y: nat, m: nat)
    requires y < 256 && m > 0
    ensures (x * 256 + y) % (256 * m) == x % m * 256 + y
  {
    var q, r := Euclid(x, m);
    assert (q * m) * 256 == q * (256 * m);
    DivModUnique(x * 256 + y, 256 * m, q, r * 256 + y);
  }

  /** The same for the match distance. */
  lemma {:induction false} DistRoundTrip(d: nat)
    requires d < LZ_DICT_SIZE
    ensures DistExtraBits(DistSym(d)) == DistExtra(d)
    ensures DistBase(DistSym(d)) + d % Pow2(DistExtra(d)) == d + 1
  {
    hide SmallDistSym, SmallDistExtra, LargeDistSym, LargeDistExtra, Pow2;
    if d < 512 {
      ShortDistRoundTrip(d);
    } else {
      LongDistRoundTrip(d / 256, d % 256);
    }
  }
}
