/** Reading bit by bit and the grammar agree: what is read spells the grammar, and what spells it is read. */
module InflateExact {
  import opened Powers
  import opened Bits
  import opened LzCodes
  import opened BitStream
  import opened CanonicalCode
  import opened InflateBudget
  import opened CodeLengthPacking
  import opened DeflateSymbols
  import opened DeflateCodes
  import opened DeflateHeader
  import opened DeflateBlock
  import opened DeflateStream
  import opened DeflateFormat
  import opened InflateReader

  // ---------------------------------------------------------------- bits and symbols

  /** Fields after fields. */
  lemma {:induction false} HoldsJoin(src: Source, fs: seq<Field>, mid: Source, gs: seq<Field>, left: Source)
    requires Holds(src, fs, mid) && Holds(mid, gs, left)
    ensures Holds(src, fs + gs, left)
  {
    ConcatOk(fs, gs);
    Concat(fs, gs);
    hide Packed, Width, FieldsOk;
    Pow2Add(Width(gs), Width(fs));
    Distribute(left.bits, Pow2(Width(gs)), Packed(gs), Pow2(Width(fs)));
  }

  lemma {:induction false} HoldsSplit(src: Source, fs: seq<Field>, gs: seq<Field>, left: Source) returns (mid: Source)
    requires Holds(src, fs + gs, left)
    ensures Holds(src, fs, mid) && Holds(mid, gs, left) && mid.used == src.used + Width(fs)
  {
    mid := BeginsSplit(src, fs, gs, left);
  }

  lemma {:induction false} BitsSound(src: Source, n: nat)
    requires TakeBits(src, n).Read?
    ensures Holds(src, [Field(TakeBits(src, n).value, n)], TakeBits(src, n).left)
  {
    var f := Field(src.bits % Pow2(n), n);
    OneField(f);
    FieldOk(f);
    hide Packed, Width, FieldsOk, Pow2;
    TakeParts(src.bits, Pow2(n));
  }

  lemma {:induction false} BitsComplete(src: Source, f: Field, left: Source)
    requires Holds(src, [f], left)
    ensures TakeBits(src, f.width) == Read(f.value, left)
  {
    assert [f] + [] == [f];
    TakeField(src, f, [], left);
    BeginsNothing(Skip(src, f.width), left);
  }

  lemma {:induction false} SymbolSound(sizes: seq<nat>, src: Source)
    requires TakeSymbol(sizes, src).Read? && Lengths(sizes)
    ensures var r := TakeSymbol(sizes, src);
            HasCode(sizes, r.value) && Holds(src, [HuffField(sizes, r.value)], r.left)
  {
    var r := TakeSymbol(sizes, src);
    assert TakeBits(src, sizes[r.value]) == Read(Transmitted(sizes, r.value), r.left);
    BitsSound(src, sizes[r.value]);
  }

  lemma {:induction false} SymbolComplete(sizes: seq<nat>, src: Source, s: nat, left: Source)
    requires NotOversubscribed(sizes) && HasCode(sizes, s) && Holds(src, [HuffField(sizes, s)], left)
    ensures TakeSymbol(sizes, src) == Read(s, left)
  {
    BitsComplete(src, HuffField(sizes, s), left);
    hide Holds, NotOversubscribed, Transmitted, Pow2, TakeSymbol;
    OneStarts(sizes, src, s);
  }

  // ---------------------------------------------------------------- the codes of a block

  lemma {:induction false} LengthSound(src: Source, s: nat) returns (x: nat)
    requires s > END_OF_BLOCK && TakeLength(src, s).Read?
    ensures s <= 285 && x < Pow2(LengthExtraBits(s)) && TakeLength(src, s).value == LengthBase(s) + x
    ensures Holds(src, [Field(x, LengthExtraBits(s))], TakeLength(src, s).left)
  {
    hide Holds, Pow2;
    BitsSound(src, LengthExtraBits(s));
    x := TakeBits(src, LengthExtraBits(s)).value;
  }

  lemma {:induction false} DistanceSound(dist: seq<nat>, src: Source) returns (d: nat, y: nat)
    requires TakeDistance(dist, src).Read? && Lengths(dist)
    ensures d < 30 && HasCode(dist, d) && y < Pow2(DistExtraBits(d)) && TakeDistance(dist, src).value == DistBase(d) + y
    ensures Holds(src, [HuffField(dist, d)] + [Field(y, DistExtraBits(d))], TakeDistance(dist, src).left)
  {
    hide Holds, Pow2, HuffField, Lengths, TakeSymbol;
    SymbolSound(dist, src);
    var r := TakeSymbol(dist, src);
    d := r.value;
    BitsSound(r.left, DistExtraBits(d));
    y := TakeBits(r.left, DistExtraBits(d)).value;
    HoldsJoin(src, [HuffField(dist, d)], r.left, [Field(y, DistExtraBits(d))], TakeDistance(dist, src).left);
  }

  /** A match that is read, from its length symbol on. */
  lemma {:induction false} MatchSound(lit: seq<nat>, dist: seq<nat>, src: Source, s: nat, mid: Source) returns (e: Entry)
    requires s > END_OF_BLOCK && HasCode(lit, s) && Holds(src, [HuffField(lit, s)], mid)
    requires TakeMatch(dist, mid, s).Read? && Lengths(dist)
    ensures EntryOk(e, lit, dist) && Meant(e, lit, dist) == TakeMatch(dist, mid, s).value
    ensures Holds(src, EntryFields(e, lit, dist), TakeMatch(dist, mid, s).left)
  {
    hide Holds, Pow2, HuffField, Lengths, TakeLength, TakeDistance;
    var x := LengthSound(mid, s);
    var behind := TakeLength(mid, s).left;
    var d, y := DistanceSound(dist, behind);
    var left := TakeDistance(dist, behind).left;
    e := Back(s, x, d, y);
    var tail := [HuffField(dist, d)] + [Field(y, DistExtraBits(d))];
    HoldsJoin(mid, [Field(x, LengthExtraBits(s))], behind, tail, left);
    HoldsJoin(src, [HuffField(lit, s)], mid, [Field(x, LengthExtraBits(s))] + tail, left);
  }

  lemma {:induction false} MatchComplete(lit: seq<nat>, dist: seq<nat>, src: Source, e: Entry, left: Source) returns (mid: Source)
    requires EntryOk(e, lit, dist) && e.Back? && Holds(src, EntryFields(e, lit, dist), left) && NotOversubscribed(dist)
    ensures Holds(src, [HuffField(lit, e.lenSym)], mid)
    ensures TakeMatch(dist, mid, e.lenSym) == Read(Meant(e, lit, dist), left)
  {
    hide Holds, Pow2, HuffField, NotOversubscribed, TakeSymbol, TakeBits;
    var a, b := HuffField(lit, e.lenSym), Field(e.lenExtra, LengthExtraBits(e.lenSym));
    var c, d := HuffField(dist, e.distSym), Field(e.distExtra, DistExtraBits(e.distSym));
    mid := HoldsSplit(src, [a], [b] + ([c] + [d]), left);
    var second := HoldsSplit(mid, [b], [c] + [d], left);
    var third := HoldsSplit(second, [c], [d], left);
    BitsComplete(mid, b, second);
    SymbolComplete(dist, second, e.distSym, third);
    BitsComplete(third, d, left);
  }

  lemma {:induction false} FirstEntry(es: seq<Entry>, e: Entry, lit: seq<nat>, dist: seq<nat>, out: seq<Byte>)
    requires EntriesOk(es, lit, dist) && EntryOk(e, lit, dist)
    ensures EntriesOk([e] + es, lit, dist)
    ensures EntriesFields([e] + es, lit, dist) == EntryFields(e, lit, dist) + EntriesFields(es, lit, dist)
    ensures var c := Meant(e, lit, dist);
            && Sensible([e] + es, lit, dist, out) == (Applicable(out, c) && Sensible(es, lit, dist, Apply(out, c)))
            && Yield([e] + es, lit, dist, out) == Yield(es, lit, dist, Apply(out, c))
  {
    hide EntryOk, EntryFields, Meant, HasCode, HuffField, Applicable, Apply;
    assert ([e] + es)[1..] == es;
  }

  lemma {:induction false} NoEntries(lit: seq<nat>, dist: seq<nat>, out: seq<Byte>)
    requires HasCode(lit, END_OF_BLOCK)
    ensures EntriesOk([], lit, dist) && EntriesFields([], lit, dist) == [HuffField(lit, END_OF_BLOCK)]
    ensures Sensible([], lit, dist, out) && Yield([], lit, dist, out) == out
  {
  }

  /** The codes read are spelled by the bits, and the output is what they stand for. */
  lemma {:induction false} CodesSound(lit: seq<nat>, dist: seq<nat>, src: Source, out: seq<Byte>) returns (es: seq<Entry>)
    requires Lengths(lit) && Lengths(dist) && TakeCodes(lit, dist, src, out).Read?
    ensures var r := TakeCodes(lit, dist, src, out);
            && EntriesOk(es, lit, dist) && Holds(src, EntriesFields(es, lit, dist), r.left)
            && Sensible(es, lit, dist, out) && Yield(es, lit, dist, out) == r.value
    decreases ToEnd(src)
  {
    hide Holds, HuffField, Lengths, HasCode, TakeSymbol, TakeMatch, Applicable, Apply, Sensible, Yield, EntriesFields,
      EntryFields, EntriesOk, Meant;
    var r, left := TakeSymbol(lit, src), TakeCodes(lit, dist, src, out).left;
    SymbolSound(lit, src);
    if r.value == END_OF_BLOCK {
      NoEntries(lit, dist, out);
      es := [];
    } else {
      var e, mid, grown := Plain(0), r.left, out;
      if r.value < END_OF_BLOCK {
        e, grown := Plain(r.value), out + [r.value];
        LiteralMeant(lit, dist, r.value, out);
      } else {
        e := MatchSound(lit, dist, src, r.value, r.left);
        var m := TakeMatch(dist, r.left, r.value);
        mid, grown := m.left, Apply(out, m.value);
      }
      es := CodesSound(lit, dist, mid, grown);
      FirstEntry(es, e, lit, dist, out);
      HoldsJoin(src, EntryFields(e, lit, dist), mid, EntriesFields(es, lit, dist), left);
      es := [e] + es;
    }
  }

  lemma {:induction false} LiteralMeant(lit: seq<nat>, dist: seq<nat>, b: Byte, out: seq<Byte>)
    requires HasCode(lit, b)
    ensures EntryOk(Plain(b), lit, dist) && EntryFields(Plain(b), lit, dist) == [HuffField(lit, b)]
    ensures var c := Meant(Plain(b), lit, dist); Applicable(out, c) && Apply(out, c) == out + [b]
  {
  }

  lemma {:induction false} CodesComplete(lit: seq<nat>, dist: seq<nat>, src: Source, out: seq<Byte>, es: seq<Entry>, left: Source)
    requires NotOversubscribed(lit) && NotOversubscribed(dist) && EntriesOk(es, lit, dist)
    requires Holds(src, EntriesFields(es, lit, dist), left) && Sensible(es, lit, dist, out)
    ensures TakeCodes(lit, dist, src, out) == Read(Yield(es, lit, dist, out), left)
    decreases |es|
  {
    hide Holds, HuffField, NotOversubscribed, HasCode, TakeSymbol, TakeMatch, Applicable, Apply, Sensible, Yield, EntriesFields,
      EntryFields, Meant, EntryOk;
    NoEntriesOf(es, lit, dist, out);
    if es == [] {
      SymbolComplete(lit, src, END_OF_BLOCK, left);
    } else {
      var e, rest := es[0], es[1..];
      assert es == [e] + rest;
      FirstEntry(rest, e, lit, dist, out);
      var mid := HoldsSplit(src, EntryFields(e, lit, dist), EntriesFields(rest, lit, dist), left);
      CodesComplete(lit, dist, mid, Apply(out, Meant(e, lit, dist)), rest, left);
      if e.Plain? {
        PlainCode(e, lit, dist, out);
        SymbolComplete(lit, src, e.value, mid);
      } else {
        BackCode(e, lit, dist);
        var behind := MatchComplete(lit, dist, src, e, mid);
        SymbolComplete(lit, src, e.lenSym, behind);
      }
    }
  }

  lemma {:induction false} NoEntriesOf(es: seq<Entry>, lit: seq<nat>, dist: seq<nat>, out: seq<Byte>)
    requires EntriesOk(es, lit, dist)
    ensures HasCode(lit, END_OF_BLOCK)
    ensures es == [] ==> EntriesFields(es, lit, dist) == [HuffField(lit, END_OF_BLOCK)] && Yield(es, lit, dist, out) == out
  {
  }

  lemma {:induction false} PlainCode(e: Entry, lit: seq<nat>, dist: seq<nat>, out: seq<Byte>)
    requires EntryOk(e, lit, dist) && e.Plain?
    ensures HasCode(lit, e.value) && EntryFields(e, lit, dist) == [HuffField(lit, e.value)]
    ensures Apply(out, Meant(e, lit, dist)) == out + [e.value]
  {
  }

  lemma {:induction false} BackCode(e: Entry, lit: seq<nat>, dist: seq<nat>)
    requires EntryOk(e, lit, dist) && e.Back?
    ensures HasCode(lit, e.lenSym) && 257 <= e.lenSym <= 285
  {
  }

  /** With complete codes and no symbols but those with a meaning, every stream is decoded or rejected. */
  lemma {:induction false} NeverUnknown(lit: seq<nat>, dist: seq<nat>, src: Source, out: seq<Byte>)
    requires CompleteCode(lit) && CompleteCode(dist) && |lit| <= 286 && |dist| <= 30
    ensures !TakeCodes(lit, dist, src, out).Unknown?
    decreases ToEnd(src)
  {
    hide CompleteCode, Starts, Apply, Applicable;
    SymbolKnown(lit, src);
    var sym := TakeSymbol(lit, src);
    if sym.Read? && sym.value < END_OF_BLOCK {
      NeverUnknown(lit, dist, sym.left, out + [sym.value]);
    } else if sym.Read? && sym.value > END_OF_BLOCK {
      MatchKnown(dist, sym.left, sym.value);
      var m := TakeMatch(dist, sym.left, sym.value);
      if m.Read? {
        NeverUnknown(lit, dist, m.left, Apply(out, m.value));
      }
    }
  }

  lemma {:induction false} SymbolKnown(sizes: seq<nat>, src: Source)
    requires CompleteCode(sizes)
    ensures !TakeSymbol(sizes, src).Unknown?
  {
    hide CompleteCode, Starts;
    var s := SomeSymbolStarts(sizes, src.bits);
  }

  lemma {:induction false} MatchKnown(dist: seq<nat>, src: Source, s: nat)
    requires CompleteCode(dist) && |dist| <= 30 && END_OF_BLOCK < s <= 285
    ensures !TakeMatch(dist, src, s).Unknown?
  {
    hide CompleteCode, TakeSymbol;
    var len := TakeLength(src, s);
    if len.Read? {
      SymbolKnown(dist, len.left);
    }
  }

  // ---------------------------------------------------------------- block headers

  lemma {:induction false} HoldsNothing(src: Source)
    requires src.used <= src.end
    ensures Holds(src, [], src)
  {
    assert Pow2(0) == 1;
  }

  lemma {:induction false} NothingHeld(src: Source, left: Source)
    requires Holds(src, [], left)
    ensures src == left
  {
    BeginsNothing(src, left);
  }

  lemma HoldsAhead(src: Source, fs: seq<Field>, left: Source)
    requires Holds(src, fs, left)
    ensures Ahead(src, left) && left.used == src.used + Width(fs)
  {
  }

  lemma {:induction false} SwizzleOnce(i: nat, j: nat)
    requires i < 19 && j < 19 && i != j
    ensures Swizzle(i) != Swizzle(j)
  {
  }

  /** Lengths agree at the places before `j` and from `sent` on. */
  ghost predicate AgreeAround(a: seq<nat>, b: seq<nat>, j: nat, sent: nat) {
    |a| == |b| == 19 && forall k: nat | k < 19 && (k < j || sent <= k) :: a[Swizzle(k)] == b[Swizzle(k)]
  }

  lemma {:induction false} PlaceSet(a: seq<nat>, lens: seq<nat>, v: nat, j: nat, sent: nat)
    requires j < sent <= 19 && |lens| == 19 && AgreeAround(a, lens[Swizzle(j) := v], j + 1, sent)
    ensures AgreeAround(a, lens, j, sent) && a[Swizzle(j)] == v
  {
    hide Swizzle;
    forall k: nat | k < 19 && (k < j || sent <= k)
      ensures a[Swizzle(k)] == lens[Swizzle(k)]
    {
      SwizzleOnce(k, j);
    }
  }

  lemma {:induction false} LensSound(src: Source, lens: seq<nat>, j: nat, sent: nat)
    requires |lens| == 19 && j <= sent <= 19 && src.used <= src.end && TakeLens(src, lens, j, sent).Read?
    requires forall s | 0 <= s < 19 :: lens[s] < 8
    ensures var r := TakeLens(src, lens, j, sent);
            && (forall s | 0 <= s < 19 :: r.value[s] < 8) && AgreeAround(r.value, lens, j, sent)
            && Holds(src, LensFields(r.value, j, sent), r.left)
    decreases sent - j
  {
    hide Holds, Pow2, Swizzle, TakeBits;
    if j == sent {
      HoldsNothing(src);
    } else {
      SmallPowers();
      BitsSound(src, 3);
      var b := TakeBits(src, 3);
      LensSound(b.left, lens[Swizzle(j) := b.value], j + 1, sent);
      var r := TakeLens(src, lens, j, sent);
      PlaceSet(r.value, lens, b.value, j, sent);
      HoldsJoin(src, [Field(b.value, 3)], b.left, LensFields(r.value, j + 1, sent), r.left);
    }
  }

  /** The lengths read so far are in place, the others zero. */
  ghost predicate LensRead(codeSize: seq<nat>, lens: seq<nat>, counter: nat) {
    && |codeSize| == |lens| == 19 && counter <= 19
    && (forall j: nat | j < counter :: codeSize[Swizzle(j)] == lens[Swizzle(j)])
    && (forall s | 0 <= s < 19 :: codeSize[s] == lens[s] || codeSize[s] == 0)
  }

  lemma {:induction false} NextLen(codeSize: seq<nat>, lens: seq<nat>, counter: nat)
    requires LensRead(codeSize, lens, counter) && counter < 19
    ensures LensRead(codeSize[Swizzle(counter) := lens[Swizzle(counter)]], lens, counter + 1)
  {
    hide Swizzle;
  }

  lemma {:induction false} AllLensRead(codeSize: seq<nat>, lens: seq<nat>, counter: nat)
    requires LensRead(codeSize, lens, counter) && forall j: nat | counter <= j < 19 :: lens[Swizzle(j)] == 0
    ensures codeSize == lens
  {
    forall s: nat | s < 19
      ensures codeSize[s] == lens[s]
    {
      var j := SwizzleCovers(s);
    }
  }

  lemma {:induction false} LensComplete(src: Source, codeSize: seq<nat>, lens: seq<nat>, j: nat, sent: nat, left: Source)
    requires j <= sent <= 19 && LensRead(codeSize, lens, j) && forall k: nat | sent <= k < 19 :: lens[Swizzle(k)] == 0
    requires Holds(src, LensFields(lens, j, sent), left)
    ensures src.used <= src.end && TakeLens(src, codeSize, j, sent) == Read(lens, left)
    decreases sent - j
  {
    hide Holds, Pow2, Swizzle, TakeBits;
    HoldsAhead(src, LensFields(lens, j, sent), left);
    if j == sent {
      NothingHeld(src, left);
      AllLensRead(codeSize, lens, j);
    } else {
      var f, more := Field(lens[Swizzle(j)], 3), LensFields(lens, j + 1, sent);
      var mid := HoldsSplit(src, [f], more, left);
      BitsComplete(src, f, mid);
      NextLen(codeSize, lens, j);
      LensComplete(mid, codeSize[Swizzle(j) := f.value], lens, j + 1, sent, left);
    }
  }

  /** The lengths after `known` and what the tokens stand for. */
  ghost function ExpandOn(known: seq<nat>, ts: seq<Token>): seq<nat>
    decreases |ts|
  {
    if ts == [] then known else ExpandOn(ExpandToken(known, ts[0]), ts[1..])
  }

  lemma {:induction false} ExpandOnIsExpand(ts: seq<Token>, more: seq<Token>)
    ensures ExpandOn(ExpandTokens(ts), more) == ExpandTokens(ts + more)
    decreases |more|
  {
    hide ExpandToken;
    if more == [] {
      assert ts + more == ts;
    } else {
      assert ts + more == ts + [more[0]] + more[1..];
      OneMoreToken(ts, more[0]);
      ExpandOnIsExpand(ts + [more[0]], more[1..]);
    }
  }

  lemma {:induction false} ExpandOnGrows(known: seq<nat>, ts: seq<Token>)
    requires TokensOk(ts)
    ensures |ExpandOn(known, ts)| >= |known| + |ts|
    decreases |ts|
  {
    if ts != [] {
      ExpandOnGrows(ExpandToken(known, ts[0]), ts[1..]);
    }
  }

  /** The token of a symbol and its extra bits. */
  function TokenOf(s: nat, x: nat): Token {
    if s < 16 then Size(s) else if s == 16 then RepeatLast(x + 3) else if s == 17 then Zeros(x + 3) else Zeros(x + 11)
  }

  lemma {:induction false} TokenRead(lens: seq<nat>, s: nat, x: nat, known: seq<nat>)
    requires |lens| == 19 && HasCode(lens, s) && x < Pow2(ExtraBits(s))
    ensures var t := TokenOf(s, x);
            && TokenOk(t) && TokenSym(t) == s && (t.RepeatLast? <==> s == 16)
            && TokenFields(t, lens) == [HuffField(lens, s)] + (if s < 16 then [] else [Field(x, ExtraBits(s))])
            && ExpandToken(known, t) == known + if s < 16 then [s] else Copies(if s == 16 then Last(known) else 0, x + RunBase(s))
  {
    SmallPowers();
    hide HuffField, Pow2;
  }

  lemma {:induction false} FirstToken(t: Token, ts: seq<Token>, lens: seq<nat>, known: seq<nat>)
    requires TokensUsable(ts, lens) && TokenOk(t) && HasCode(lens, TokenSym(t))
    ensures TokensUsable([t] + ts, lens) && PackedFields([t] + ts, lens) == TokenFields(t, lens) + PackedFields(ts, lens)
    ensures ExpandOn(known, [t] + ts) == ExpandOn(ExpandToken(known, t), ts)
  {
    hide TokenOk, TokenFields, HasCode, HuffField, ExpandToken;
    assert ([t] + ts)[1..] == ts;
  }

  lemma {:induction false} SizesSound(lens: seq<nat>, src: Source, total: nat, known: seq<nat>) returns (ts: seq<Token>)
    requires |lens| == 19 && src.used <= src.end && Lengths(lens) && TakeSizes(lens, src, total, known).Read?
    ensures var r := TakeSizes(lens, src, total, known);
            && TokensUsable(ts, lens) && Holds(src, PackedFields(ts, lens), r.left) && ExpandOn(known, ts) == r.value
    ensures known == [] ==> WellStarted(ts)
    decreases ToEnd(src)
  {
    hide Holds, HuffField, Lengths, HasCode, TakeSymbol, TakeBits, PackedFields, TokenFields, TokensUsable, ExpandToken, Pow2;
    var r := TakeSizes(lens, src, total, known);
    if |known| >= total {
      HoldsNothing(src);
      NoTokens(lens);
      ts := [];
    } else {
      SymbolSound(lens, src);
      var sym := TakeSymbol(lens, src);
      var s, x: nat, mid := sym.value, 0, sym.left;
      if s >= 16 {
        BitsSound(sym.left, ExtraBits(s));
        var bits := TakeBits(sym.left, ExtraBits(s));
        x, mid := bits.value, bits.left;
        HoldsJoin(src, [HuffField(lens, s)], sym.left, [Field(x, ExtraBits(s))], mid);
      } else {
        assert [HuffField(lens, s)] + [] == [HuffField(lens, s)];
        SmallPowers();
      }
      TokenRead(lens, s, x, known);
      var t := TokenOf(s, x);
      ts := SizesSound(lens, mid, total, ExpandToken(known, t));
      FirstToken(t, ts, lens, known);
      HoldsJoin(src, TokenFields(t, lens), mid, PackedFields(ts, lens), r.left);
      ts := [t] + ts;
    }
  }

  lemma {:induction false} NoTokens(lens: seq<nat>)
    ensures TokensUsable([], lens) && PackedFields([], lens) == []
  {
  }

  lemma {:induction false} SizesComplete(lens: seq<nat>, src: Source, total: nat, known: seq<nat>, ts: seq<Token>, left: Source)
    requires |lens| == 19 && NotOversubscribed(lens) && TokensUsable(ts, lens) && (known == [] ==> WellStarted(ts))
    requires Holds(src, PackedFields(ts, lens), left) && |ExpandOn(known, ts)| == total
    ensures src.used <= src.end && TakeSizes(lens, src, total, known) == Read(ExpandOn(known, ts), left)
    decreases |ts|
  {
    hide Holds, HuffField, NotOversubscribed, HasCode, TakeSymbol, TakeBits, PackedFields, TokenFields, ExpandToken, Pow2;
    HoldsAhead(src, PackedFields(ts, lens), left);
    ExpandOnGrows(known, ts);
    if ts == [] {
      NoTokens(lens);
      NothingHeld(src, left);
    } else {
      var t, rest := ts[0], ts[1..];
      assert ts == [t] + rest;
      FirstToken(t, rest, lens, known);
      var mid := HoldsSplit(src, TokenFields(t, lens), PackedFields(rest, lens), left);
      var s, x := TokenSym(t), Extra(t);
      TokenWritten(t);
      TokenRead(lens, s, x, known);
      if s < 16 {
        assert [HuffField(lens, s)] + [] == [HuffField(lens, s)];
        SymbolComplete(lens, src, s, mid);
      } else {
        var behind := HoldsSplit(src, [HuffField(lens, s)], [Field(x, ExtraBits(s))], mid);
        SymbolComplete(lens, src, s, behind);
        BitsComplete(behind, Field(x, ExtraBits(s)), mid);
      }
      SizesComplete(lens, mid, total, ExpandToken(known, t), rest, left);
    }
  }

  lemma {:induction false} TokenWritten(t: Token)
    requires TokenOk(t)
    ensures 0 <= Extra(t) < Pow2(ExtraBits(TokenSym(t))) && t == TokenOf(TokenSym(t), Extra(t)) && TokenSym(t) < 19
  {
    SmallPowers();
    hide Pow2;
  }

  // ---------------------------------------------------------------- headers and blocks

  lemma {:induction false} HeaderSplit(h: Header)
    requires HeaderOk(h)
    ensures HeaderFields(h) == [Field(|h.lit| - 257, 5)] + ([Field(|h.dist| - 1, 5)] + ([Field(h.sent - 4, 4)]
            + (LensFields(h.lens, 0, h.sent) + PackedFields(h.tokens, h.lens))))
  {
    hide LensFields, PackedFields, TokensUsable, Accepted, ExpandTokens;
  }

  lemma {:induction false} LengthsSound(src: Source, lits: nat, dists: nat, sent: nat) returns (h: Header)
    requires 257 <= lits <= 288 && 1 <= dists <= 32 && 4 <= sent <= 19 && src.used <= src.end
    requires TakeLengths(src, lits, dists, sent).Read?
    ensures var r := TakeLengths(src, lits, dists, sent);
            && HeaderOk(h) && |h.lit| == lits && |h.dist| == dists && h.sent == sent && r.value == Codes(h.lit, h.dist)
            && Holds(src, LensFields(h.lens, 0, sent) + PackedFields(h.tokens, h.lens), r.left)
  {
    hide Holds, TakeLens, TakeSizes, LensFields, PackedFields, TokensUsable, Accepted, ExpandTokens, ExpandOn, Swizzle, WellStarted, Lengths;
    LensSound(src, Copies(0, 19), 0, sent);
    var lens := TakeLens(src, Copies(0, 19), 0, sent);
    AcceptedFits(lens.value);
    AcceptedLengths(lens.value);
    var sizes := TakeSizes(lens.value, lens.left, lits + dists, []);
    var ts := SizesSound(lens.value, lens.left, lits + dists, []);
    ExpandOnIsExpand([], ts);
    assert [] + ts == ts;
    NoneExpanded();
    var all := sizes.value;
    h := Header(all[..lits], all[lits..], lens.value, sent, ts);
    assert all == h.lit + h.dist;
    forall j: nat | sent <= j < 19
      ensures h.lens[Swizzle(j)] == 0
    {
      assert h.lens[Swizzle(j)] == Copies(0, 19)[Swizzle(j)];
    }
    HoldsJoin(src, LensFields(h.lens, 0, sent), lens.left, PackedFields(ts, h.lens), sizes.left);
  }

  lemma NoneExpanded()
    ensures ExpandTokens([]) == []
  {
  }

  lemma {:induction false} AcceptedLengths(sizes: seq<nat>)
    requires Accepted(sizes)
    ensures Lengths(sizes)
  {
  }

  lemma {:induction false} HeaderSound(src: Source) returns (h: Header)
    requires TakeHeader(src).Read?
    ensures var r := TakeHeader(src);
            HeaderOk(h) && r.value == Codes(h.lit, h.dist) && Holds(src, HeaderFields(h), r.left)
  {
    SmallPowers();
    hide Holds, TakeLengths, HeaderFields, HeaderOk, LensFields, PackedFields, TakeBits, Pow2;
    BitsSound(src, 5);
    var a := TakeBits(src, 5);
    BitsSound(a.left, 5);
    var b := TakeBits(a.left, 5);
    BitsSound(b.left, 4);
    var c := TakeBits(b.left, 4);
    h := LengthsSound(c.left, a.value + 257, b.value + 1, c.value + 4);
    var r := TakeHeader(src);
    HeaderShape(h);
    HeaderSplit(h);
    var tail := LensFields(h.lens, 0, h.sent) + PackedFields(h.tokens, h.lens);
    HoldsJoin(b.left, [Field(c.value, 4)], c.left, tail, r.left);
    HoldsJoin(a.left, [Field(b.value, 5)], b.left, [Field(c.value, 4)] + tail, r.left);
    HoldsJoin(src, [Field(a.value, 5)], a.left, [Field(b.value, 5)] + ([Field(c.value, 4)] + tail), r.left);
  }

  lemma {:induction false} HeaderShape(h: Header)
    requires HeaderOk(h)
    ensures |h.lens| == 19 && 4 <= h.sent <= 19 && TokensUsable(h.tokens, h.lens) && 257 <= |h.lit| <= 288 && 1 <= |h.dist| <= 32
    ensures Accepted(h.lit) && Accepted(h.dist) && Accepted(h.lens) && WellStarted(h.tokens)
    ensures ExpandTokens(h.tokens) == h.lit + h.dist && forall j: nat | h.sent <= j < 19 :: h.lens[Swizzle(j)] == 0
  {
    hide Accepted;
  }

  lemma {:induction false} LengthsComplete(src: Source, h: Header, left: Source)
    requires HeaderOk(h) && Holds(src, LensFields(h.lens, 0, h.sent) + PackedFields(h.tokens, h.lens), left)
    ensures src.used <= src.end && TakeLengths(src, |h.lit|, |h.dist|, h.sent) == Read(Codes(h.lit, h.dist), left)
  {
    hide Holds, TakeLens, TakeSizes, LensFields, PackedFields, TokensUsable, Accepted, ExpandTokens, ExpandOn, Swizzle, WellStarted,
      HeaderOk, NotOversubscribed;
    HeaderShape(h);
    var mid := HoldsSplit(src, LensFields(h.lens, 0, h.sent), PackedFields(h.tokens, h.lens), left);
    LensComplete(src, Copies(0, 19), h.lens, 0, h.sent, mid);
    AcceptedFits(h.lens);
    ExpandOnIsExpand([], h.tokens);
    NoneExpanded();
    assert [] + h.tokens == h.tokens;
    SizesComplete(h.lens, mid, |h.lit| + |h.dist|, [], h.tokens, left);
    assert (h.lit + h.dist)[..|h.lit|] == h.lit && (h.lit + h.dist)[|h.lit|..] == h.dist;
  }

  lemma {:induction false} HeaderComplete(src: Source, h: Header, left: Source)
    requires HeaderOk(h) && Holds(src, HeaderFields(h), left)
    ensures TakeHeader(src) == Read(Codes(h.lit, h.dist), left)
  {
    hide Holds, TakeLengths, HeaderFields, HeaderOk, LensFields, PackedFields, TakeBits, Pow2;
    HeaderShape(h);
    HeaderSplit(h);
    var tail := LensFields(h.lens, 0, h.sent) + PackedFields(h.tokens, h.lens);
    var a, b, c := Field(|h.lit| - 257, 5), Field(|h.dist| - 1, 5), Field(h.sent - 4, 4);
    var first := HoldsSplit(src, [a], [b] + ([c] + tail), left);
    var second := HoldsSplit(first, [b], [c] + tail, left);
    var third := HoldsSplit(second, [c], tail, left);
    BitsComplete(src, a, first);
    BitsComplete(first, b, second);
    BitsComplete(second, c, third);
    LengthsComplete(third, h, left);
  }

  lemma {:induction false} BytesSound(src: Source, count: nat, out: seq<Byte>) returns (bytes: seq<Byte>)
    requires src.used <= src.end && TakeBytes(src, count, out).Read?
    ensures var r := TakeBytes(src, count, out);
            |bytes| == count && r.value == out + bytes && Holds(src, ByteFields(bytes), r.left)
    decreases count
  {
    hide Holds, TakeBits, Pow2;
    if count == 0 {
      HoldsNothing(src);
      bytes := [];
    } else {
      SmallPowers();
      BitsSound(src, 8);
      var b := TakeBits(src, 8);
      bytes := BytesSound(b.left, count - 1, out + [b.value]);
      HoldsJoin(src, [Field(b.value, 8)], b.left, ByteFields(bytes), TakeBytes(src, count, out).left);
      assert ([b.value] + bytes)[1..] == bytes && out + [b.value] + bytes == out + ([b.value] + bytes);
      bytes := [b.value] + bytes;
    }
  }

  lemma {:induction false} BytesComplete(src: Source, bytes: seq<Byte>, out: seq<Byte>, left: Source)
    requires Holds(src, ByteFields(bytes), left)
    ensures src.used <= src.end && TakeBytes(src, |bytes|, out) == Read(out + bytes, left)
    decreases |bytes|
  {
    hide Holds, TakeBits, Pow2;
    HoldsAhead(src, ByteFields(bytes), left);
    if bytes == [] {
      NothingHeld(src, left);
      assert out + bytes == out;
    } else {
      var f := Field(bytes[0], 8);
      var mid := HoldsSplit(src, [f], ByteFields(bytes[1..]), left);
      BitsComplete(src, f, mid);
      BytesComplete(mid, bytes[1..], out + [bytes[0]], left);
      assert out + [bytes[0]] + bytes[1..] == out + bytes;
    }
  }

  lemma {:induction false} PaddingSound(src: Source)
    requires TakeBits(src, Missing(src.used)).Read?
    ensures Holds(src, PaddingOf(TakeBits(src, Missing(src.used)).value, src.used), TakeBits(src, Missing(src.used)).left)
  {
    BitsSound(src, Missing(src.used));
    if Missing(src.used) == 0 {
      NothingSkipped(src);
      HoldsNothing(src);
    }
  }

  lemma {:induction false} PaddingComplete(src: Source, padding: nat, left: Source)
    requires Holds(src, PaddingOf(padding, src.used), left)
    ensures TakeBits(src, Missing(src.used)).Read? && TakeBits(src, Missing(src.used)).left == left
  {
    if Missing(src.used) == 0 {
      NothingSkipped(src);
      NothingHeld(src, left);
    } else {
      BitsComplete(src, Field(padding, Missing(src.used)), left);
    }
  }

  lemma NothingSkipped(src: Source)
    ensures Skip(src, 0) == src
  {
    assert Pow2(0) == 1;
  }

  lemma {:induction false} StoredSound(src: Source, out: seq<Byte>) returns (b: RawBlock)
    requires TakeStored(src, out).Read?
    ensures b.Raw? && BlockOk(b) && Holds(src, InnerFields(b, src.used), TakeStored(src, out).left)
    ensures BlockYield(b, out) == TakeStored(src, out).value
  {
    Sixteen();
    hide Holds, TakeBits, Pow2, ByteFields, Missing, PaddingOf;
    PaddingSound(src);
    var pad := TakeBits(src, Missing(src.used));
    BitsSound(pad.left, 16);
    var len := TakeBits(pad.left, 16);
    BitsSound(len.left, 16);
    var nlen := TakeBits(len.left, 16);
    var bytes := BytesSound(nlen.left, len.value, out);
    b := Raw(bytes, pad.value);
    var left := TakeStored(src, out).left;
    HoldsJoin(len.left, [Field(nlen.value, 16)], nlen.left, ByteFields(bytes), left);
    HoldsJoin(pad.left, [Field(len.value, 16)], len.left, [Field(nlen.value, 16)] + ByteFields(bytes), left);
    HoldsJoin(src, PaddingOf(pad.value, src.used), pad.left,
              [Field(len.value, 16)] + ([Field(nlen.value, 16)] + ByteFields(bytes)), left);
  }

  lemma {:induction false} StoredComplete(src: Source, b: RawBlock, out: seq<Byte>, left: Source)
    requires b.Raw? && BlockOk(b) && Holds(src, InnerFields(b, src.used), left)
    ensures TakeStored(src, out) == Read(out + b.bytes, left)
  {
    hide Holds, TakeBits, Pow2, ByteFields, Missing, PaddingOf;
    var n := |b.bytes|;
    var len, nlen, tail := Field(n, 16), Field(0xFFFF - n, 16), ByteFields(b.bytes);
    var first := HoldsSplit(src, PaddingOf(b.padding, src.used), [len] + ([nlen] + tail), left);
    var second := HoldsSplit(first, [len], [nlen] + tail, left);
    var third := HoldsSplit(second, [nlen], tail, left);
    PaddingComplete(src, b.padding, first);
    BitsComplete(first, len, second);
    BitsComplete(second, nlen, third);
    BytesComplete(third, b.bytes, out, left);
  }

  lemma {:induction false} StaticAccepted()
    ensures Lengths(StaticLit()) && Lengths(StaticDist())
    ensures NotOversubscribed(StaticLit()) && NotOversubscribed(StaticDist())
  {
    hide Accepted, Lengths, NotOversubscribed, StaticLit, StaticDist;
    StaticComplete();
    AcceptedLengths(StaticLit());
    AcceptedLengths(StaticDist());
    AcceptedFits(StaticLit());
    AcceptedFits(StaticDist());
  }

  lemma {:induction false} BodySound(src: Source, kind: nat, out: seq<Byte>) returns (b: RawBlock)
    requires TakeBody(src, kind, out).Read?
    ensures BlockOk(b) && Kind(b) == kind && Holds(src, InnerFields(b, src.used), TakeBody(src, kind, out).left)
    ensures SensibleBlock(b, out) && BlockYield(b, out) == TakeBody(src, kind, out).value
  {
    hide Holds, TakeStored, TakeCodes, TakeHeader, EntriesFields, Sensible, Yield, StaticLit, StaticDist, Lengths, Accepted,
      HeaderOk, HeaderFields, EntriesOk;
    if kind == 0 {
      b := StoredSound(src, out);
    } else if kind == 1 {
      StaticAccepted();
      var es := CodesSound(StaticLit(), StaticDist(), src, out);
      b := Fixed(es);
    } else {
      var h := HeaderSound(src);
      var r := TakeHeader(src);
      AcceptedLengths(h.lit);
      AcceptedLengths(h.dist);
      var es := CodesSound(h.lit, h.dist, r.left, out);
      b := Custom(h, es);
      HoldsJoin(src, HeaderFields(h), r.left, EntriesFields(es, h.lit, h.dist), TakeBody(src, kind, out).left);
    }
  }

  lemma {:induction false} BodyComplete(src: Source, b: RawBlock, out: seq<Byte>, left: Source)
    requires BlockOk(b) && SensibleBlock(b, out) && Holds(src, InnerFields(b, src.used), left)
    ensures TakeBody(src, Kind(b), out) == Read(BlockYield(b, out), left)
  {
    hide Holds, TakeStored, TakeCodes, TakeHeader, EntriesFields, Sensible, Yield, StaticLit, StaticDist, Lengths, Accepted,
      NotOversubscribed, HeaderOk, HeaderFields, EntriesOk;
    match b
    case Raw(bytes, _) =>
      StoredComplete(src, b, out, left);
    case Fixed(es) =>
      StaticAccepted();
      CodesComplete(StaticLit(), StaticDist(), src, out, es, left);
    case Custom(h, es) =>
      var mid := HoldsSplit(src, HeaderFields(h), EntriesFields(es, h.lit, h.dist), left);
      HeaderComplete(src, h, mid);
      HeaderShape(h);
      AcceptedFits(h.lit);
      AcceptedFits(h.dist);
      CodesComplete(h.lit, h.dist, mid, out, es, left);
  }

  /** The final bit and the type, as one field or two. */
  lemma {:induction false} HeaderBits(src: Source, header: nat, left: Source)
    requires header < 8
    ensures Holds(src, [Field(header, 3)], left) <==> Holds(src, [Field(header % 2, 1)] + [Field(header / 2, 2)], left)
  {
    SmallPowers();
    hide Begins, Pow2;
    var f, g := Field(header % 2, 1), Field(header / 2, 2);
    assert [Field(header, 3)] + [] == [Field(header, 3)] && [f] + ([g] + []) == [f] + [g];
    if Begins(src, [Field(header, 3)], left) {
      SplitField(src, header, 1, 2, [], left);
    }
    if Begins(src, [f] + [g], left) {
      JoinFields(src, f, g, [], left);
    }
  }

  lemma {:induction false} BlockSound(src: Source, out: seq<Byte>) returns (b: RawBlock)
    requires TakeBlock(src, out).Read?
    ensures var r := TakeBlock(src, out);
            && BlockOk(b) && SensibleBlock(b, out) && r.value.out == BlockYield(b, out)
            && Holds(src, BlockFields(b, r.value.last, src.used), r.left)
  {
    SmallPowers();
    hide Holds, TakeBits, TakeBody, InnerFields, BlockOk, SensibleBlock, BlockYield, Pow2;
    BitsSound(src, 3);
    var header := TakeBits(src, 3);
    HeaderBits(src, header.value, header.left);
    b := BodySound(header.left, header.value / 2, out);
    var r := TakeBlock(src, out);
    var f, g, inner := Field(header.value % 2, 1), Field(header.value / 2, 2), InnerFields(b, src.used + 3);
    HoldsJoin(src, [f] + [g], header.left, inner, r.left);
    assert [f] + [g] + inner == [f] + ([g] + inner);
  }

  lemma {:induction false} BlockComplete(src: Source, b: RawBlock, last: bool, out: seq<Byte>, left: Source)
    requires BlockOk(b) && SensibleBlock(b, out) && Holds(src, BlockFields(b, last, src.used), left)
    ensures TakeBlock(src, out) == Read(Progress(last, BlockYield(b, out)), left)
  {
    hide Holds, TakeBits, TakeBody, InnerFields, BlockOk, SensibleBlock, BlockYield;
    var header := (if last then 1 else 0) + 2 * Kind(b);
    var f, g, inner := Field(if last then 1 else 0, 1), Field(Kind(b), 2), InnerFields(b, src.used + 3);
    assert [f] + [g] + inner == [f] + ([g] + inner);
    var mid := HoldsSplit(src, [f] + [g], inner, left);
    HeaderBits(src, header, mid);
    BitsComplete(src, Field(header, 3), mid);
    BodyComplete(mid, b, out, left);
  }

  /** A block is read if and only if one is ahead. */
  lemma {:induction false} BlockExactly(src: Source, out: seq<Byte>)
    ensures var r := TakeBlock(src, out);
            r.Read? ==> exists b :: BlockAhead(src, b, r.value.last, out, r.left) && r.value.out == BlockYield(b, out)
    ensures forall b, last, left :: BlockAhead(src, b, last, out, left) ==>
              TakeBlock(src, out) == Read(Progress(last, BlockYield(b, out)), left)
  {
    hide TakeBlock, BlockOk, SensibleBlock, BlockYield, BlockFields, Holds;
    if TakeBlock(src, out).Read? {
      var b := BlockSound(src, out);
      assert BlockAhead(src, b, TakeBlock(src, out).value.last, out, TakeBlock(src, out).left);
    }
    forall b, last, left | BlockAhead(src, b, last, out, left)
      ensures TakeBlock(src, out) == Read(Progress(last, BlockYield(b, out)), left)
    {
      BlockComplete(src, b, last, out, left);
    }
  }

  // ---------------------------------------------------------------- whole streams

  lemma {:induction false} FirstBlock(b: RawBlock, bs: seq<RawBlock>, at: nat, out: seq<Byte>)
    requires BlockOk(b) && BlocksOk(bs)
    ensures BlocksOk([b] + bs)
    ensures var first := BlockFields(b, false, at);
            StreamFields([b] + bs, at) == first + StreamFields(bs, at + Width(first))
    ensures SensibleBlocks([b] + bs, out) == (SensibleBlock(b, out) && SensibleBlocks(bs, BlockYield(b, out)))
    ensures StreamYield([b] + bs, out) == StreamYield(bs, BlockYield(b, out))
  {
    hide BlockOk, BlockFields, SensibleBlock, BlockYield;
    assert ([b] + bs)[1..] == bs;
  }

  lemma {:induction false} OneBlock(b: RawBlock, at: nat, out: seq<Byte>)
    requires BlockOk(b)
    ensures BlocksOk([b]) && StreamFields([b], at) == BlockFields(b, true, at)
    ensures SensibleBlocks([b], out) == SensibleBlock(b, out) && StreamYield([b], out) == BlockYield(b, out)
  {
    hide BlockOk, BlockFields, SensibleBlock, BlockYield;
  }

  /** What is read is spelled by the bits as a stream of blocks. */
  lemma {:induction false} BlocksSound(src: Source, out: seq<Byte>) returns (bs: seq<RawBlock>)
    requires TakeBlocks(src, out).Read?
    ensures var r := TakeBlocks(src, out);
            && BlocksOk(bs) && Holds(src, StreamFields(bs, src.used), r.left)
            && SensibleBlocks(bs, out) && StreamYield(bs, out) == r.value
    decreases ToEnd(src)
  {
    hide Holds, TakeBlock, BlockFields, BlockOk, BlocksOk, SensibleBlock, BlockYield, StreamFields, SensibleBlocks, StreamYield;
    var b := BlockSound(src, out);
    var first := TakeBlock(src, out);
    if first.value.last {
      OneBlock(b, src.used, out);
      bs := [b];
    } else {
      bs := BlocksSound(first.left, first.value.out);
      FirstBlock(b, bs, src.used, out);
      var fields := BlockFields(b, false, src.used);
      HoldsAhead(src, fields, first.left);
      HoldsJoin(src, fields, first.left, StreamFields(bs, first.left.used), TakeBlocks(src, out).left);
      bs := [b] + bs;
    }
  }

  /** What is spelled as a stream of blocks is read. */
  lemma {:induction false} BlocksComplete(src: Source, bs: seq<RawBlock>, out: seq<Byte>, left: Source)
    requires BlocksOk(bs) && SensibleBlocks(bs, out) && Holds(src, StreamFields(bs, src.used), left)
    ensures TakeBlocks(src, out) == Read(StreamYield(bs, out), left)
    decreases |bs|
  {
    hide Holds, TakeBlock, BlockFields, BlockOk, SensibleBlock, BlockYield, StreamFields, SensibleBlocks, StreamYield;
    var b, rest := bs[0], bs[1..];
    assert bs == [b] + rest;
    if rest == [] {
      assert bs == [b];
      OneBlock(b, src.used, out);
      BlockComplete(src, b, true, out, left);
    } else {
      FirstBlock(b, rest, src.used, out);
      var fields := BlockFields(b, false, src.used);
      var mid := HoldsSplit(src, fields, StreamFields(rest, src.used + Width(fields)), left);
      BlockComplete(src, b, false, out, mid);
      BlocksComplete(mid, rest, BlockYield(b, out), left);
    }
  }

  /** Blocks up to the last are read if and only if they are ahead. */
  lemma {:induction false} BlocksExactly(src: Source, out: seq<Byte>)
    ensures var r := TakeBlocks(src, out);
            r.Read? ==> exists bs :: BlocksAhead(src, bs, out, r.left) && r.value == StreamYield(bs, out)
    ensures forall bs, left :: BlocksAhead(src, bs, out, left) ==> TakeBlocks(src, out) == Read(StreamYield(bs, out), left)
  {
    hide TakeBlocks, BlocksOk, SensibleBlocks, StreamYield, StreamFields, Holds;
    if TakeBlocks(src, out).Read? {
      var bs := BlocksSound(src, out);
      assert BlocksAhead(src, bs, out, TakeBlocks(src, out).left);
    }
    forall bs, left | BlocksAhead(src, bs, out, left)
      ensures TakeBlocks(src, out) == Read(StreamYield(bs, out), left)
    {
      BlocksComplete(src, bs, out, left);
    }
  }

  /** Reading bit by bit gives `data` if and only if the bytes begin with a deflate stream of `data`. */
  lemma {:induction false} TakenExactly(bytes: seq<Byte>, data: seq<Byte>)
    ensures Readable(bytes, data) <==> Taken(bytes).Read? && Taken(bytes).value == data
  {
    hide TakeBlocks, BlocksOk, SensibleBlocks, Holds, StreamYield, Number;
    BlocksExactly(StreamOf(bytes), []);
    if Taken(bytes).Read? {
      var r := Taken(bytes);
      var bs :| BlocksAhead(StreamOf(bytes), bs, [], r.left) && r.value == StreamYield(bs, []);
      assert ReadableAs(bytes, r.value, bs, r.left);
    }
    if Readable(bytes, data) {
      var bs: seq<RawBlock>, left: Source :| ReadableAs(bytes, data, bs, left);
    }
  }

  /** Bytes begin with a stream of one buffer at most. */
  lemma {:induction false} OneMeaning(bytes: seq<Byte>, a: seq<Byte>, b: seq<Byte>)
    requires Readable(bytes, a) && Readable(bytes, b)
    ensures a == b
  {
    hide Readable, Taken;
    TakenExactly(bytes, a);
    TakenExactly(bytes, b);
  }
}
