/** The compressor's LZ codes, what they expand to, and the byte buffer they are recorded in. */
module LzCodes {
  import ByteValues

  type Byte = ByteValues.Byte

  const MIN_MATCH_LEN := 3
  const MAX_MATCH_LEN := 258
  const LZ_DICT_SIZE := 32768

  datatype Code = Literal(value: Byte) | Match(len: nat, dist: nat)

  /** The matches the format can express. */
  ghost predicate Expressible(c: Code) {
    c.Match? ==> MIN_MATCH_LEN <= c.len <= MAX_MATCH_LEN && 1 <= c.dist <= LZ_DICT_SIZE
  }

  ghost predicate AllExpressible(cs: seq<Code>) {
    forall i | 0 <= i < |cs| :: Expressible(cs[i])
  }

  /** Appends `len` bytes, each copied from `dist` bytes back. */
  ghost function CopyBack(out: seq<Byte>, len: nat, dist: nat): (r: seq<Byte>)
    ensures |r| == |out| + len
    decreases len
  {
    if len == 0 then out
    else CopyBack(out + [if 1 <= dist <= |out| then out[|out| - dist] else 0], len - 1, dist)
  }

  /** The code reaches back no further than the output goes. */
  ghost predicate Applicable(out: seq<Byte>, c: Code) {
    Expressible(c) && (c.Match? ==> c.dist <= |out|)
  }

  ghost function Apply(out: seq<Byte>, c: Code): seq<Byte> {
    match c
    case Literal(b) => out + [b]
    case Match(len, dist) => CopyBack(out, len, dist)
  }

  /** The output after all of `cs`. */
  ghost function Expand(out: seq<Byte>, cs: seq<Code>): seq<Byte> {
    if cs == [] then out else Apply(Expand(out, cs[..|cs| - 1]), cs[|cs| - 1])
  }

  /** Every code is a true back reference when its turn comes. */
  ghost predicate Decodable(out: seq<Byte>, cs: seq<Code>) {
    cs == [] || (Decodable(out, cs[..|cs| - 1]) && Applicable(Expand(out, cs[..|cs| - 1]), cs[|cs| - 1]))
  }

  lemma {:induction false} ExpandOne(out: seq<Byte>, cs: seq<Code>, c: Code)
    ensures Expand(out, cs + [c]) == Apply(Expand(out, cs), c)
    ensures Decodable(out, cs + [c]) <==> Decodable(out, cs) && Applicable(Expand(out, cs), c)
  {
    assert (cs + [c])[..|cs|] == cs;
  }

  /** The `len` bytes at `at` repeat what stands `dist` bytes before. */
  ghost predicate Repeats(data: seq<Byte>, at: nat, len: nat, dist: nat) {
    && 1 <= dist <= at && at + len <= |data|
    && forall p | at <= p < at + len :: data[p] == data[p - dist]
  }

  /** Copying back over a true repeat reproduces it. */
  lemma {:induction false} CopyRepeat(data: seq<Byte>, at: nat, len: nat, dist: nat)
    requires Repeats(data, at, len, dist)
    ensures CopyBack(data[..at], len, dist) == data[..at + len]
    decreases len
  {
    if len > 0 {
      assert data[..at] + [data[at - dist]] == data[..at + 1];
      CopyRepeat(data, at + 1, len - 1, dist);
    }
  }

  /** The number of bytes the codes stand for. */
  ghost function Span(cs: seq<Code>): nat {
    if cs == [] then 0 else Span(cs[..|cs| - 1]) + (if cs[|cs| - 1].Match? then cs[|cs| - 1].len else 1)
  }

  lemma {:induction false} SpanIsLength(out: seq<Byte>, cs: seq<Code>)
    ensures |Expand(out, cs)| == |out| + Span(cs)
  {
    if cs != [] {
      SpanIsLength(out, cs[..|cs| - 1]);
    }
  }

  lemma {:induction false} SpanOne(cs: seq<Code>, c: Code)
    ensures Span(cs + [c]) == Span(cs) + (if c.Match? then c.len else 1)
  {
    assert (cs + [c])[..|cs|] == cs;
  }
}

/** The flag-byte code buffer: one flag byte for every eight codes, a set bit for a match. */
module LzCodeBuffer {
  import opened Powers
  import opened Bits
  import opened LzCodes

  const CODE_BUF_SIZE := 65536

  function Item(c: Code): (bs: seq<int>)
    requires Expressible(c)
    ensures forall i | 0 <= i < |bs| :: 0 <= bs[i] < 256
    ensures |bs| == if c.Match? then 3 else 1
  {
    match c
    case Literal(b) => [b as int]
    case Match(len, dist) => [len - MIN_MATCH_LEN, (dist - 1) % 256, (dist - 1) / 256]
  }

  ghost function Items(cs: seq<Code>): (bs: seq<int>)
    requires AllExpressible(cs)
    ensures |cs| <= |bs| <= 3 * |cs|
  {
    if cs == [] then [] else Items(cs[..|cs| - 1]) + Item(cs[|cs| - 1])
  }

  /** The flags of at most eight codes, the first in bit 0. */
  ghost function Flags(cs: seq<Code>): nat {
    if cs == [] then 0 else Flags(cs[..|cs| - 1]) + (if cs[|cs| - 1].Match? then Pow2(|cs| - 1) else 0)
  }

  /** Where the last group of `n` codes starts. */
  ghost function LastGroup(n: nat): (full: nat)
    requires n > 0
    ensures full < n <= full + 8 && full % 8 == 0
  {
    n - 1 - (n - 1) % 8
  }

  /** The finished form of the codes: groups of eight, each after its flag byte. */
  ghost function Serialized(cs: seq<Code>): seq<int>
    requires AllExpressible(cs)
    decreases |cs|
  {
    if cs == [] then []
    else
      var full := LastGroup(|cs|);
      Serialized(cs[..full]) + [Flags(cs[full..])] + Items(cs[full..])
  }

  lemma {:induction false} LastGroupUnique(n: nat, full: nat)
    requires full % 8 == 0 && full < n <= full + 8
    ensures LastGroup(n) == full
  {
  }

  lemma {:induction false} SerializedSplit(cs: seq<Code>, full: nat)
    requires AllExpressible(cs) && full % 8 == 0 && full < |cs| <= full + 8
    ensures Serialized(cs) == Serialized(cs[..full]) + [Flags(cs[full..])] + Items(cs[full..])
  {
    LastGroupUnique(|cs|, full);
  }

  // ---------------------------------------------------------------- writing

  /** The byte buffer while `cs` are being recorded: finished groups, then the open group, begun at code
      `full`, whose flag byte holds its flags in the upper bits. */
  ghost predicate Recording(buf: seq<int>, flagsPos: nat, left: nat, cs: seq<Code>, full: nat) {
    && AllExpressible(cs) && full % 8 == 0 && full <= |cs| < full + 8 && left == 8 - (|cs| - full)
    && flagsPos == |Serialized(cs[..full])| < |buf|
    && 0 <= buf[flagsPos] < 256 && buf[flagsPos] / Pow2(left) == Flags(cs[full..])
    && buf[..flagsPos] == Serialized(cs[..full])
    && buf[flagsPos + 1..] == Items(cs[full..])
  }

  lemma {:induction false} ItemsOne(cs: seq<Code>, c: Code)
    requires AllExpressible(cs) && Expressible(c)
    ensures AllExpressible(cs + [c]) && Items(cs + [c]) == Items(cs) + Item(c)
  {
    assert (cs + [c])[..|cs|] == cs;
  }

  lemma {:induction false} FlagsOne(cs: seq<Code>, c: Code)
    ensures Flags(cs + [c]) == Flags(cs) + (if c.Match? then Pow2(|cs|) else 0)
  {
    assert (cs + [c])[..|cs|] == cs;
  }

  lemma {:induction false} FlagsBound(cs: seq<Code>)
    ensures Flags(cs) < Pow2(|cs|)
  {
    if cs != [] {
      FlagsBound(cs[..|cs| - 1]);
    }
  }

  /** Shifting a flag byte down and setting bit 7 for a match. */
  function ShiftFlag(f: int, isMatch: bool): (r: int)
    requires 0 <= f < 256
    ensures 0 <= r < 256
  {
    f / 2 + (if isMatch then 0x80 else 0)
  }

  lemma {:induction false} ShiftFlagUpper(f: int, isMatch: bool, k: nat)
    requires 0 <= f < 256 && k < 8
    ensures ShiftFlag(f, isMatch) / Pow2(7 - k) == f / Pow2(8 - k) + (if isMatch then Pow2(k) else 0)
  {
    hide Pow2;
    var p, m := Pow2(7 - k), Pow2(k);
    Pow2Double(7 - k);
    Pow2Add(k, 7 - k);
    Pow2Seven();
    var q, r := Euclid(f, 2 * p);
    HalfOf(f, p, q, r);
    if isMatch {
      Distribute(1, m, q, p);
      assert (m + q) * p == m * p + q * p;
      DivModUnique(f / 2 + 128, p, q + m, r / 2);
    } else {
      DivModUnique(f / 2, p, q, r / 2);
    }
  }

  lemma {:induction false} Pow2Seven()
    ensures Pow2(7) == 128
  {
    Pow2Values();
  }

  lemma {:induction false} HalfOf(f: int, p: int, q: int, r: int)
    requires f == q * (2 * p) + r && 0 <= r < 2 * p
    ensures f / 2 == q * p + r / 2 && 0 <= r / 2 < p
  {
    assert q * (2 * p) == 2 * (q * p);
  }

  lemma {:induction false} GroupOne(cs: seq<Code>, c: Code, full: nat)
    requires full <= |cs|
    ensures (cs + [c])[full..] == cs[full..] + [c] && (cs + [c])[..full] == cs[..full]
  {
  }

  /** What recording a code makes of the open group's bytes. */
  ghost function Recorded(buf: seq<int>, flagsPos: nat, c: Code): (r: seq<int>)
    requires flagsPos < |buf| && 0 <= buf[flagsPos] < 256 && Expressible(c)
    ensures |r| == |buf| + |Item(c)|
  {
    buf[flagsPos := ShiftFlag(buf[flagsPos], c.Match?)] + Item(c)
  }

  lemma {:induction false} RecordedParts(buf: seq<int>, flagsPos: nat, left: nat, cs: seq<Code>, full: nat, c: Code)
    requires Recording(buf, flagsPos, left, cs, full) && Expressible(c)
    ensures var r, group := Recorded(buf, flagsPos, c), cs[full..] + [c];
            && AllExpressible(group) && 0 <= r[flagsPos] < 256
            && r[..flagsPos] == Serialized(cs[..full])
            && r[flagsPos] / Pow2(left - 1) == Flags(group)
            && r[flagsPos + 1..] == Items(group)
  {
    hide Items, Flags, Pow2, Serialized, ShiftFlag, Item;
    var group := cs[full..];
    assert left == 8 - |group|;
    ItemsOne(group, c);
    FlagsOne(group, c);
    ShiftFlagUpper(buf[flagsPos], c.Match?, |group|);
    UpdateThenAppend(buf, flagsPos, ShiftFlag(buf[flagsPos], c.Match?), Item(c));
  }

  lemma {:induction false} UpdateThenAppend(buf: seq<int>, p: nat, v: int, item: seq<int>)
    requires p < |buf|
    ensures var r := buf[p := v] + item;
            r[..p] == buf[..p] && r[p] == v && r[p + 1..] == buf[p + 1..] + item
  {
  }

  /** A flag byte with its items closes a group and leaves room for the next flag byte. */
  lemma {:induction false} CloseGroup(r: seq<int>, flagsPos: nat, cs: seq<Code>, full: nat, stale: Byte)
    requires AllExpressible(cs) && full % 8 == 0 && |cs| == full + 8 && flagsPos < |r|
    requires r[..flagsPos] == Serialized(cs[..full]) && r[flagsPos] == Flags(cs[full..]) && r[flagsPos + 1..] == Items(cs[full..])
    ensures Recording(r + [stale as int], |r|, 8, cs, full + 8)
  {
    hide Items, Flags, Pow2, Serialized;
    SerializedSplit(cs, full);
    assert r == r[..flagsPos] + [r[flagsPos]] + r[flagsPos + 1..];
    OpenGroup(r, cs, stale);
  }

  /** A finished buffer with one more byte is an open group without codes. */
  lemma {:induction false} OpenGroup(r: seq<int>, cs: seq<Code>, stale: Byte)
    requires AllExpressible(cs) && |cs| % 8 == 0 && r == Serialized(cs)
    ensures Recording(r + [stale as int], |r|, 8, cs, |cs|)
  {
    hide Items, Flags, Pow2, Serialized;
    EmptyGroup(stale);
    var n := |cs|;
    assert cs[..n] == cs && cs[n..] == [];
    var buf' := r + [stale as int];
    assert buf'[..|r|] == r && buf'[|r| + 1..] == [];
  }

  /** Recording a code in an open group that keeps room for more. */
  lemma {:induction false} RecordInside(buf: seq<int>, flagsPos: nat, left: nat, cs: seq<Code>, full: nat, c: Code)
    requires Recording(buf, flagsPos, left, cs, full) && Expressible(c) && left > 1
    ensures Recording(Recorded(buf, flagsPos, c), flagsPos, left - 1, cs + [c], full)
  {
    hide Items, Flags, Pow2, Serialized, ShiftFlag, Recorded;
    RecordedParts(buf, flagsPos, left, cs, full, c);
    GroupOne(cs, c, full);
  }

  /** Recording the eighth code of a group opens the next group with an arbitrary flag byte. */
  lemma {:induction false} RecordEighth(buf: seq<int>, flagsPos: nat, cs: seq<Code>, full: nat, c: Code, stale: Byte)
    requires Recording(buf, flagsPos, 1, cs, full) && Expressible(c)
    ensures var r := Recorded(buf, flagsPos, c);
            Recording(r + [stale as int], |r|, 8, cs + [c], full + 8)
  {
    hide Items, Flags, Pow2, Serialized, ShiftFlag, Recorded;
    RecordedParts(buf, flagsPos, 1, cs, full, c);
    GroupOne(cs, c, full);
    Pow2Zero();
    OverOne(Recorded(buf, flagsPos, c)[flagsPos]);
    CloseGroup(Recorded(buf, flagsPos, c), flagsPos, cs + [c], full, stale);
  }

  lemma {:induction false} Pow2Zero()
    ensures Pow2(0) == 1
  {
  }

  lemma {:induction false} OverOne(x: int)
    ensures x / 1 == x
  {
  }

  lemma {:induction false} EmptyGroup(stale: Byte)
    ensures stale / Pow2(8) == 0 == Flags([]) && Items([]) == []
  {
    Pow2Values();
  }

  /** The final form: the open group's flags move down to bit 0, or its unused flag byte is dropped. */
  lemma {:induction false} FinishRecording(buf: seq<int>, flagsPos: nat, left: nat, cs: seq<Code>, full: nat)
    requires Recording(buf, flagsPos, left, cs, full)
    ensures left < 8 ==> buf[flagsPos := buf[flagsPos] / Pow2(left)] == Serialized(cs)
    ensures left == 8 ==> |buf| == flagsPos + 1 && buf[..flagsPos] == Serialized(cs)
  {
    hide Items, Flags, Pow2, Serialized;
    if left < 8 {
      SerializedSplit(cs, full);
      UpdateAt(buf, flagsPos, buf[flagsPos] / Pow2(left));
    } else {
      ItemsNone();
      assert cs[..full] == cs && cs[full..] == [];
    }
  }

  lemma {:induction false} UpdateAt(buf: seq<int>, p: nat, v: int)
    requires p < |buf|
    ensures buf[p := v] == buf[..p] + [v] + buf[p + 1..]
  {
  }

  // ---------------------------------------------------------------- reading

  /** The codes of the group that starts at `full`. */
  ghost function Group(cs: seq<Code>, full: nat): seq<Code>
    requires full < |cs|
  {
    cs[full..if full + 8 <= |cs| then full + 8 else |cs|]
  }

  ghost predicate HasPrefix(buf: seq<int>, p: seq<int>) {
    |p| <= |buf| && buf[..|p|] == p
  }

  lemma {:induction false} ConcatHasPrefix(p: seq<int>, q: seq<int>)
    ensures HasPrefix(p + q, p)
  {
  }

  lemma {:induction false} PrefixChain(buf: seq<int>, p: seq<int>, q: seq<int>)
    requires HasPrefix(buf, p) && HasPrefix(p, q)
    ensures HasPrefix(buf, q)
  {
    assert buf[..|q|] == buf[..|p|][..|q|];
  }

  /** The finished buffer begins with its first groups, and every group with its flag byte. */
  lemma {:induction false} SerializedGroup(cs: seq<Code>, full: nat)
    requires AllExpressible(cs) && full < |cs| && full % 8 == 0
    ensures HasPrefix(Serialized(cs), Serialized(cs[..full]) + [Flags(Group(cs, full))] + Items(Group(cs, full)))
    decreases |cs|
  {
    hide Items, Flags, Serialized, HasPrefix;
    var last := LastGroup(|cs|);
    SerializedSplit(cs, last);
    if full < last {
      SerializedGroup(cs[..last], full);
      EarlierGroup(cs, full, last);
      Appended(Serialized(cs[..last]), [Flags(cs[last..])], Items(cs[last..]));
      PrefixChain(Serialized(cs), Serialized(cs[..last]),
                  Serialized(cs[..full]) + [Flags(Group(cs, full))] + Items(Group(cs, full)));
    } else {
      assert full == last && Group(cs, full) == cs[full..];
      WholePrefix(Serialized(cs));
    }
  }

  lemma {:induction false} EarlierGroup(cs: seq<Code>, full: nat, last: nat)
    requires full < last <= |cs| && full % 8 == 0 && last % 8 == 0
    ensures cs[..last][..full] == cs[..full] && Group(cs[..last], full) == Group(cs, full)
  {
    assert full + 8 <= last;
  }

  lemma {:induction false} Appended(p: seq<int>, q: seq<int>, r: seq<int>)
    ensures HasPrefix(p + q + r, p)
  {
  }

  lemma {:induction false} WholePrefix(p: seq<int>)
    ensures HasPrefix(p, p)
  {
  }

  lemma {:induction false} SerializedWholeGroup(cs: seq<Code>, full: nat)
    requires AllExpressible(cs) && full % 8 == 0 && full < |cs| && |Group(cs, full)| == 8
    ensures Serialized(cs[..full + 8]) == Serialized(cs[..full]) + [Flags(Group(cs, full))] + Items(Group(cs, full))
  {
    var g := cs[..full + 8];
    SerializedSplit(g, full);
    assert g[..full] == cs[..full] && g[full..] == Group(cs, full);
  }

  lemma {:induction false} ItemAt(cs: seq<Code>, k: nat)
    requires AllExpressible(cs) && k < |cs|
    ensures HasPrefix(Items(cs), Items(cs[..k]) + Item(cs[k]))
    decreases |cs|
  {
    hide Items, Item, HasPrefix;
    var n := |cs| - 1;
    assert cs[..n] + [cs[n]] == cs;
    ItemsOne(cs[..n], cs[n]);
    if k < n {
      ItemAt(cs[..n], k);
      assert cs[..n][..k] == cs[..k];
      ConcatHasPrefix(Items(cs[..n]), Item(cs[n]));
      PrefixChain(Items(cs), Items(cs[..n]), Items(cs[..k]) + Item(cs[k]));
    } else {
      WholePrefix(Items(cs));
    }
  }

  /** Bit `k` of the flags says whether code `k` is a match. */
  lemma {:induction false} FlagAt(cs: seq<Code>, k: nat)
    requires k < |cs|
    ensures Flags(cs) / Pow2(k) % 2 == if cs[k].Match? then 1 else 0
    decreases |cs|
  {
    hide Flags;
    var n := |cs| - 1;
    var bit: nat := if cs[n].Match? then 1 else 0;
    FlagsBound(cs[..n]);
    assert cs[..n] + [cs[n]] == cs;
    FlagsOne(cs[..n], cs[n]);
    if k < n {
      FlagAt(cs[..n], k);
      Pow2Add(k + 1, n - k - 1);
      Pow2Double(k);
      var m := bit * Pow2(n - k - 1);
      assert bit * Pow2(n) == m * (2 * Pow2(k));
      HighBitIrrelevant(Flags(cs[..n]), k, m);
    } else {
      DivModUnique(Flags(cs), Pow2(k), bit, Flags(cs[..n]));
    }
  }

  lemma {:induction false} HighBitIrrelevant(f: nat, k: nat, m: nat)
    ensures (f + m * (2 * Pow2(k))) / Pow2(k) % 2 == f / Pow2(k) % 2
  {
    var p := Pow2(k);
    var q, r := Euclid(f, p);
    assert (q + 2 * m) * p == q * p + m * (2 * p);
    DivModUnique(f + m * (2 * p), p, q + 2 * m, r);
  }

  /** The reader's place and its shifted flag word, with `i` codes read, the present group begun at `full`. */
  ghost predicate Reading(buf: seq<int>, cs: seq<Code>, i: nat, full: nat, pos: nat, flags: nat) {
    && AllExpressible(cs) && buf == Serialized(cs) && full % 8 == 0 && full <= i <= |cs| && i < full + 8
    && (if i == full then flags == 1 && pos == |Serialized(cs[..i])|
        else
          && flags == (Flags(Group(cs, full)) + 256) / Pow2(i - full)
          && pos == |Serialized(cs[..full])| + 1 + |Items(cs[full..i])|)
  }

  lemma {:induction false} GroupSlices(cs: seq<Code>, i: nat, full: nat)
    requires full <= i < |cs| && i < full + 8
    ensures i - full < |Group(cs, full)| && Group(cs, full)[i - full] == cs[i]
    ensures Group(cs, full)[..i - full] == cs[full..i]
  {
  }

  lemma {:induction false} WordQuotient(f: nat, k: nat)
    requires k <= 8
    ensures (f + 256) / Pow2(k) == f / Pow2(k) + Pow2(8 - k)
  {
    Pow2Values();
    hide Pow2;
    Pow2Add(k, 8 - k);
    var q, r := Euclid(f, Pow2(k));
    assert (q + Pow2(8 - k)) * Pow2(k) == q * Pow2(k) + Pow2(8 - k) * Pow2(k);
    DivModUnique(f + 256, Pow2(k), q + Pow2(8 - k), r);
  }

  /** The sentinel above the flags: the word is 1 exactly when all eight flags are used up. */
  lemma {:induction false} WordOfGroup(f: nat, k: nat)
    requires f < 256 && k <= 8
    ensures k < 8 ==> (f + 256) / Pow2(k) != 1 && (f + 256) / Pow2(k) % 2 == f / Pow2(k) % 2
    ensures k == 8 ==> (f + 256) / Pow2(k) == 1
  {
    WordQuotient(f, k);
    Pow2Values();
    var q, r := Euclid(f, Pow2(k));
    if k < 8 {
      Pow2Double(7 - k);
      EvenShift(q, Pow2(7 - k));
    } else {
      DivModUnique(f, 256, 0, f);
      Pow2Double(0);
    }
  }

  lemma {:induction false} EvenShift(q: nat, e: nat)
    ensures (q + 2 * e) % 2 == q % 2
  {
  }

  lemma {:induction false} GroupFlagsBound(cs: seq<Code>, full: nat)
    requires full < |cs|
    ensures Flags(Group(cs, full)) < 256
  {
    FlagsBound(Group(cs, full));
    Pow2Monotone(|Group(cs, full)|, 8);
    Pow2Values();
  }

  /** The word a reader holds once the flag byte of the present group is loaded. */
  ghost predicate Loaded(buf: seq<int>, cs: seq<Code>, i: nat, full: nat, pos: nat, word: nat) {
    && AllExpressible(cs) && buf == Serialized(cs) && full % 8 == 0 && full <= i < |cs| && i < full + 8
    && word == (Flags(Group(cs, full)) + 256) / Pow2(i - full)
    && pos == |Serialized(cs[..full])| + 1 + |Items(cs[full..i])|
  }

  /** The reader loads a flag byte exactly at the start of a group. */
  lemma {:induction false} LoadFlags(buf: seq<int>, cs: seq<Code>, i: nat, full: nat, pos: nat, flags: nat)
    requires Reading(buf, cs, i, full, pos, flags) && i < |cs|
    ensures flags == 1 ==> pos < |buf| && 0 <= buf[pos] < 256 && Loaded(buf, cs, i, full, pos + 1, buf[pos] + 256)
    ensures flags != 1 ==> Loaded(buf, cs, i, full, pos, flags)
  {
    hide Flags, Items, Serialized;
    GroupFlagsBound(cs, full);
    var f := Flags(Group(cs, full));
    WordOfGroup(f, i - full);
    if i == full {
      SerializedGroup(cs, full);
      FlagByteAt(buf, Serialized(cs[..full]), f, Items(Group(cs, full)));
      assert cs[full..i] == [];
      ItemsNone();
      Pow2Double(0);
    }
  }

  lemma {:induction false} FlagByteAt(buf: seq<int>, p: seq<int>, f: int, items: seq<int>)
    requires HasPrefix(buf, p + [f] + items)
    ensures |p| < |buf| && buf[|p|] == f
  {
    assert buf[|p|] == (p + [f] + items)[|p|];
  }

  lemma {:induction false} ItemsNone()
    ensures Items([]) == []
  {
  }

  /** The loaded word's lowest bit tells the kind of the next code. */
  lemma {:induction false} NextFlag(buf: seq<int>, cs: seq<Code>, i: nat, full: nat, pos: nat, word: nat)
    requires Loaded(buf, cs, i, full, pos, word)
    ensures word % 2 == (if cs[i].Match? then 1 else 0)
  {
    hide Flags, Items, Serialized, Pow2, Group;
    var g, k := Group(cs, full), i - full;
    GroupSlices(cs, i, full);
    GroupFlagsBound(cs, full);
    WordOfGroup(Flags(g), k);
    FlagAt(g, k);
  }

  /** The bytes at the reader's place are those of the next code. */
  lemma {:induction false} NextItem(buf: seq<int>, cs: seq<Code>, i: nat, full: nat, pos: nat, word: nat)
    requires Loaded(buf, cs, i, full, pos, word)
    ensures pos + |Item(cs[i])| <= |buf| && buf[pos..pos + |Item(cs[i])|] == Item(cs[i])
  {
    hide Flags, Items, Serialized, Item, Pow2, Group, HasPrefix;
    var g := Group(cs, full);
    GroupSlices(cs, i, full);
    SerializedGroup(cs, full);
    GroupExpressible(cs, full);
    ItemAt(g, i - full);
    SubPrefix(buf, Serialized(cs[..full]) + [Flags(g)], Items(g), Items(cs[full..i]), Item(cs[i]));
  }

  lemma {:induction false} GroupExpressible(cs: seq<Code>, full: nat)
    requires AllExpressible(cs) && full < |cs|
    ensures AllExpressible(Group(cs, full))
  {
  }

  lemma {:induction false} SubPrefix(buf: seq<int>, head: seq<int>, body: seq<int>, before: seq<int>, item: seq<int>)
    requires HasPrefix(buf, head + body) && HasPrefix(body, before + item)
    ensures var pos := |head| + |before|; pos + |item| <= |buf| && buf[pos..pos + |item|] == item
  {
    var pos := |head| + |before|;
    assert buf[|head|..|head| + |body|] == buf[..|head + body|][|head|..] == body;
    assert buf[pos..pos + |item|] == body[|before|..|before| + |item|];
    assert body[|before|..|before| + |item|] == body[..|before + item|][|before|..] == item;
  }

  /** After a code the word shifts on, and after the eighth the next group begins. */
  lemma {:induction false} AfterCode(buf: seq<int>, cs: seq<Code>, i: nat, full: nat, pos: nat, word: nat)
    requires Loaded(buf, cs, i, full, pos, word)
    ensures Reading(buf, cs, i + 1, if i + 1 == full + 8 then full + 8 else full, pos + |Item(cs[i])|, word / 2)
  {
    hide Flags, Items, Serialized, Item, Pow2;
    var g := Group(cs, full);
    GroupFlagsBound(cs, full);
    HalvesOnce(Flags(g) + 256, i - full);
    assert cs[full..i + 1] == cs[full..i] + [cs[i]];
    ItemsOne(cs[full..i], cs[i]);
    if i + 1 == full + 8 {
      WordOfGroup(Flags(g), 8);
      SerializedWholeGroup(cs, full);
      assert g == cs[full..i + 1];
    }
  }

  lemma {:induction false} HalvesOnce(x: nat, k: nat)
    ensures x / Pow2(k) / 2 == x / Pow2(k + 1)
  {
    var q, r := Euclid(x, Pow2(k));
    var h, b := Euclid(q, 2);
    Pow2Double(k);
    var p := Pow2(k);
    assert (h * 2 + b) * p == h * (2 * p) + b * p;
    assert b * p == if b == 0 then 0 else p;
    DivModUnique(x, 2 * p, h, b * p + r);
  }

  /** The reader reaches the end of the buffer exactly after the last code. */
  lemma {:induction false} ReadingEnd(buf: seq<int>, cs: seq<Code>, i: nat, full: nat, pos: nat, flags: nat)
    requires Reading(buf, cs, i, full, pos, flags)
    ensures pos < |buf| <==> i < |cs|
  {
    if i < |cs| {
      LoadFlags(buf, cs, i, full, pos, flags);
      if flags != 1 {
        NextItem(buf, cs, i, full, pos, flags);
      }
    } else if i == full {
      assert cs[..i] == cs;
    } else {
      SerializedSplit(cs, full);
      assert cs[full..i] == cs[full..];
    }
  }
}
