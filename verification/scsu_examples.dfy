/** Byte sequences given to a new expander, and texts given to a new compressor, in numbers. */
module ScsuExamples {
  import opened ByteValues
  import opened Scsu
  import opened ScsuStream
  import opened ScsuExpander
  import opened ScsuCompressor

  /** A unit as two bytes, the lower first. */
  function Two(u: Unit): seq<Byte> {
    [u % 256, u / 256]
  }

  function Fresh(): State {
    State(false, 0x80, DEFAULT_WINDOWS)
  }

  /** What a new expander makes of bytes that stand for one unit. */
  method ExpandOne(source: seq<Byte>, ghost unit: Unit) returns (dest: seq<Byte>)
    requires Expanded(Fresh(), source).units == [unit]
    ensures dest == Two(unit)
  {
    hide Expanded;
    var expander := new Expander();
    UnitBytesOne(unit);
    hide UnitBytes;
    var consumed, written := expander.Expand(source, 3);
    dest := expander.io.dest;
  }

  lemma {:induction false} OneStep(st: State, s: seq<Byte>, used: nat, next: State)
    requires |st.windows| == 8 && s != [] && NextStep(st, s) == Took(used, [], next)
    ensures Expanded(st, s).units == Expanded(next, s[used..]).units
  {
    hide NextStep;
    var o := Expanded(next, s[used..]);
    assert [] + o.units == o.units;
  }

  lemma {:induction false} LastStep(st: State, s: seq<Byte>, units: seq<Unit>, next: State)
    requires |st.windows| == 8 && s != [] && NextStep(st, s) == Took(|s|, units, next)
    ensures Expanded(st, s).units == units
  {
    hide NextStep;
    assert s[|s|..] == [];
    assert Expanded(next, []).units == [];
    assert units + [] == units;
  }

  // ---------------------------------------------------------------- windows

  /** The windows at the start, selected by SC0 to SC7. */
  method SelectedWindow(k: nat, b: Byte) returns (dest: seq<Byte>)
    requires k < 8 && b >= 0x80
    ensures dest == Two([0x0080, 0x00C0, 0x0400, 0x0600, 0x0900, 0x3040, 0x30A0, 0xFF00][k] + b as int - 0x80)
  {
    var s: seq<Byte> := [0x10 + k, b];
    ghost var unit := [0x0080, 0x00C0, 0x0400, 0x0600, 0x0900, 0x3040, 0x30A0, 0xFF00][k] + b as int - 0x80;
    ghost var st := Fresh();
    ghost var next := st.(active := unit - b + 0x80);
    assert s[1..] == [b];
    OneStep(st, s, 1, next);
    LastStep(next, [b], [unit], next);
    dest := ExpandOne(s, unit);
  }

  /** A byte of a window at the start, quoted by SQ0 to SQ7. */
  method QuotedWindow(k: nat, b: Byte) returns (dest: seq<Byte>)
    requires k < 8 && b >= 0x80
    ensures dest == Two([0x0080, 0x00C0, 0x0400, 0x0600, 0x0900, 0x3040, 0x30A0, 0xFF00][k] + b as int - 0x80)
  {
    var s: seq<Byte> := [0x01 + k, b];
    ghost var unit := [0x0080, 0x00C0, 0x0400, 0x0600, 0x0900, 0x3040, 0x30A0, 0xFF00][k] + b as int - 0x80;
    LastStep(Fresh(), s, [unit], Fresh());
    dest := ExpandOne(s, unit);
  }

  /** A byte of a static window, quoted by SQ0 to SQ7. */
  method QuotedStatic(k: nat, b: Byte) returns (dest: seq<Byte>)
    requires k < 8 && b < 0x80
    ensures dest == Two([0x0000, 0x0080, 0x0100, 0x0300, 0x2000, 0x2080, 0x2100, 0x3000][k] + b as int)
  {
    var s: seq<Byte> := [0x01 + k, b];
    ghost var unit := [0x0000, 0x0080, 0x0100, 0x0300, 0x2000, 0x2080, 0x2100, 0x3000][k] + b as int;
    LastStep(Fresh(), s, [unit], Fresh());
    dest := ExpandOne(s, unit);
  }

  /** Where a defined window starts. */
  function Start(offset: Byte): nat
    requires 0x01 <= offset <= 0xA7 || 0xF9 <= offset <= 0xFF
  {
    if offset <= 0x67 then 0x80 * offset
    else if offset <= 0xA7 then 0xE000 + 0x80 * (offset - 0x68)
    else [0x00C0, 0x0250, 0x0370, 0x0530, 0x3040, 0x30A0, 0xFF60][offset - 0xF9]
  }

  /** A window defined by SD0 to SD7 is selected at once, and kept: it is selected again after another one. */
  method DefinedWindow(k: nat, other: nat, offset: Byte, b: Byte) returns (once: seq<Byte>, again: seq<Byte>)
    requires k < 8 && other < 8 && b >= 0x80 && (0x01 <= offset <= 0xA7 || 0xF9 <= offset <= 0xFF)
    ensures once == again == Two(Start(offset) + b - 0x80)
  {
    hide NextStep, Expanded, DynamicWindowBase, Start;
    StartIs(offset);
    ghost var unit: Unit := Start(offset) + b - 0x80;
    var short: seq<Byte>, long: seq<Byte> := [0x18 + k, offset, b], [0x18 + k, offset, 0x10 + other, 0x10 + k, b];
    assert short[2..] == [b] && long[2..] == [0x10 + other, 0x10 + k, b];
    ghost var defined := Defines(Fresh(), short, k);
    defined := Defines(Fresh(), long, k);
    WindowCharacter(defined, b);
    SelectAndBack(defined, k, other, b);
    once := ExpandOne(short, unit);
    again := ExpandOne(long, unit);
  }

  lemma {:induction false} Defines(st: State, s: seq<Byte>, k: nat) returns (defined: State)
    requires |st.windows| == 8 && k < 8 && |s| >= 2 && s[0] == (if st.unicode then 0xE8 + k else 0x18 + k)
    requires 0x01 <= s[1] <= 0xA7 || 0xF9 <= s[1] <= 0xFF
    ensures defined == State(false, Start(s[1]), st.windows[k := Start(s[1])]) && Start(s[1]) <= 0xFF80
    ensures Expanded(st, s).units == Expanded(defined, s[2..]).units
  {
    StartIs(s[1]);
    hide DynamicWindowBase, Start;
    defined := State(false, Start(s[1]), st.windows[k := Start(s[1])]);
    OneStep(st, s, 2, defined);
  }

  lemma StartIs(offset: Byte)
    requires 0x01 <= offset <= 0xA7 || 0xF9 <= offset <= 0xFF
    ensures DynamicWindowBase(offset) == Start(offset) <= 0xFF80
  {
  }

  lemma {:induction false} SelectAndBack(st: State, k: nat, other: nat, b: Byte)
    requires |st.windows| == 8 && !st.unicode && k < 8 && other < 8 && st.active == st.windows[k] <= 0xFF80 && b >= 0x80
    ensures Expanded(st, [0x10 + other, 0x10 + k, b]).units == [st.active + b - 0x80]
  {
    var s: seq<Byte> := [0x10 + other, 0x10 + k, b];
    var away := st.(active := st.windows[other]);
    assert s[1..] == [0x10 + k, b] && [0x10 + k, b][1..] == [b];
    OneStep(st, s, 1, away);
    OneStep(away, [0x10 + k, b], 1, st);
    LastStep(st, [b], [st.active + b - 0x80], st);
  }

  /** A code point in UTF-16, as bytes. */
  function Surrogates(v: nat): seq<Byte>
    requires v <= 0x10FFFF
  {
    if v < 0x10000 then Two(v) else Two(0xD800 + (v - 0x10000) / 0x400) + Two(0xDC00 + (v - 0x10000) % 0x400)
  }

  /** What a new expander makes of bytes that stand for one code point. */
  method ExpandPoint(source: seq<Byte>, ghost v: nat) returns (dest: seq<Byte>)
    requires v <= 0x10FFFF && Expanded(Fresh(), source).units == Units(v)
    ensures dest == Surrogates(v)
  {
    hide Expanded;
    var expander := new Expander();
    PointBytes(v);
    hide UnitBytes, Units;
    var consumed, written := expander.Expand(source, 5);
    dest := expander.io.dest;
  }

  lemma PointBytes(v: nat)
    requires v <= 0x10FFFF
    ensures UnitBytes(Units(v)) == Surrogates(v)
  {
    hide UnitBytes;
    if v < 0x10000 {
      UnitBytesOne(v);
    } else {
      var a: Unit, b: Unit := 0xD800 + (v - 0x10000) / 0x400, 0xDC00 + (v - 0x10000) % 0x400;
      UnitBytesOne(a);
      UnitBytesOne(b);
      UnitBytesConcat([a], [b]);
      assert Units(v) == [a] + [b];
    }
  }

  /** A window defined by SDX, and one defined by UDX and selected again after another one: from 0x1000 on, in steps
      of 0x80; the upper three bits are the number of the window. */
  method ExtendedWindow(hi: Byte, lo: Byte, other: nat, b: Byte) returns (single: seq<Byte>, unicode: seq<Byte>)
    requires other < 8 && b >= 0x80
    ensures single == unicode == Surrogates(0x1000 + 0x80 * (hi as int % 32 * 0x100 + lo) + b - 0x80)
  {
    hide NextStep, Expanded, Surrogates, Units;
    var k: nat := hi as int / 32;
    var s: seq<Byte>, t: seq<Byte> := [0x0B, hi, lo, b], [0x0F, 0xF1, hi, lo, 0x10 + other, 0x10 + k, b];
    ghost var v: nat := 0x1000 + 0x80 * (hi as int % 32 * 0x100 + lo) + b as int - 0x80;
    ExtendedSingle(s, hi, lo, b, v);
    ExtendedUnicode(t, hi, lo, k, other, b, v);
    single := ExpandPoint(s, v);
    unicode := ExpandPoint(t, v);
  }

  lemma {:induction false} ExtendedSingle(s: seq<Byte>, hi: Byte, lo: Byte, b: Byte, v: nat)
    requires b >= 0x80 && s == [0x0B, hi, lo, b] && v == 0x1000 + 0x80 * (hi as int % 32 * 0x100 + lo) + b as int - 0x80
    ensures Expanded(Fresh(), s).units == Units(v)
  {
    hide Expanded, Units;
    var st := Fresh();
    var next := State(false, v - (b as int - 0x80), st.windows[hi as int / 32 := v - (b as int - 0x80)]);
    assert s[3..] == [b];
    OneStep(st, s, 3, next);
    WindowCharacter(next, b);
  }

  lemma {:induction false} ExtendedUnicode(t: seq<Byte>, hi: Byte, lo: Byte, k: nat, other: nat, b: Byte, v: nat)
    requires b >= 0x80 && other < 8 && k == hi as int / 32 && t == [0x0F, 0xF1, hi, lo, 0x10 + other, 0x10 + k, b]
    requires v == 0x1000 + 0x80 * (hi as int % 32 * 0x100 + lo) + b as int - 0x80
    ensures Expanded(Fresh(), t).units == Units(v)
  {
    hide Expanded, Units;
    var st, base: nat := Fresh(), v - (b as int - 0x80);
    var mode, next := st.(unicode := true), State(false, base, st.windows[k := base]);
    var t1: seq<Byte>, t2: seq<Byte> := [0xF1, hi, lo, 0x10 + other, 0x10 + k, b], [0x10 + other, 0x10 + k, b];
    assert t[1..] == t1 && t1[3..] == t2 && t2[1..] == [0x10 + k, b] && [0x10 + k, b][1..] == [b];
    OneStep(st, t, 1, mode);
    OneStep(mode, t1, 3, next);
    var away := next.(active := next.windows[other]);
    OneStep(next, t2, 1, away);
    OneStep(away, [0x10 + k, b], 1, next);
    WindowCharacter(next, b);
  }

  // ---------------------------------------------------------------- characters by themselves, and Unicode mode

  /** Null, tabulator, line ends and printable ASCII stand for themselves. */
  method Itself(b: Byte) returns (dest: seq<Byte>)
    requires b in {0x00, 0x09, 0x0A, 0x0D} || 0x20 <= b <= 0x7F
    ensures dest == [b, 0]
  {
    LastStep(Fresh(), [b], [b], Fresh());
    dest := ExpandOne([b], b);
  }

  /** A unit quoted by SQU, or by UQU in Unicode mode. */
  method QuotedUnit(hi: Byte, lo: Byte) returns (single: seq<Byte>, unicode: seq<Byte>)
    ensures single == unicode == [lo, hi]
  {
    ghost var unit: Unit := hi as int * 256 + lo;
    ghost var mode := Fresh().(unicode := true);
    var s: seq<Byte>, t: seq<Byte> := [0x0E, hi, lo], [0x0F, 0xF0, hi, lo];
    assert t[1..] == [0xF0, hi, lo];
    LastStep(Fresh(), s, [unit], Fresh());
    OneStep(Fresh(), t, 1, mode);
    LastStep(mode, [0xF0, hi, lo], [unit], mode);
    single := ExpandOne(s, unit);
    unicode := ExpandOne(t, unit);
  }

  /** Two bytes of Unicode mode. */
  method PlainUnit(hi: Byte, lo: Byte) returns (dest: seq<Byte>)
    requires hi < 0xE0 || hi > 0xF2
    ensures dest == [lo, hi]
  {
    ghost var unit: Unit := hi as int * 256 + lo;
    ghost var mode := Fresh().(unicode := true);
    var s: seq<Byte> := [0x0F, hi, lo];
    assert s[1..] == [hi, lo];
    OneStep(Fresh(), s, 1, mode);
    LastStep(mode, [hi, lo], [unit], mode);
    dest := ExpandOne(s, unit);
  }

  /** Back from Unicode mode by UC0 to UC7, or by defining a window with UD0 to UD7. */
  method BackFromUnicode(k: nat, offset: Byte, b: Byte) returns (changed: seq<Byte>, defined: seq<Byte>)
    requires k < 8 && b >= 0x80 && (0x01 <= offset <= 0xA7 || 0xF9 <= offset <= 0xFF)
    ensures changed == Two([0x0080, 0x00C0, 0x0400, 0x0600, 0x0900, 0x3040, 0x30A0, 0xFF00][k] + b as int - 0x80)
    ensures defined == Two(Start(offset) + b - 0x80)
  {
    hide Expanded, Fresh;
    var s: seq<Byte>, t: seq<Byte> := [0x0F, 0xE0 + k, b], [0x0F, 0xE8 + k, offset, b];
    ghost var unit := Changed(s, k, b);
    ghost var unit2 := DefinedBack(t, k, offset, b);
    changed := ExpandOne(s, unit);
    defined := ExpandOne(t, unit2);
  }

  lemma {:induction false} DefinedBack(t: seq<Byte>, k: nat, offset: Byte, b: Byte) returns (unit: Unit)
    requires k < 8 && b >= 0x80 && (0x01 <= offset <= 0xA7 || 0xF9 <= offset <= 0xFF) && t == [0x0F, 0xE8 + k, offset, b]
    ensures unit == Start(offset) + b - 0x80 && Expanded(Fresh(), t).units == [unit]
  {
    hide Expanded;
    unit := Start(offset) + b - 0x80;
    var st := Fresh();
    var mode := st.(unicode := true);
    assert t[1..] == [0xE8 + k, offset, b] && [0xE8 + k, offset, b][2..] == [b];
    OneStep(st, t, 1, mode);
    var two := Defines(mode, [0xE8 + k, offset, b], k);
    LastStep(two, [b], [unit], two);
  }

  lemma {:induction false} Changed(s: seq<Byte>, k: nat, b: Byte) returns (unit: Unit)
    requires k < 8 && b >= 0x80 && s == [0x0F, 0xE0 + k, b]
    ensures unit == [0x0080, 0x00C0, 0x0400, 0x0600, 0x0900, 0x3040, 0x30A0, 0xFF00][k] + b as int - 0x80
    ensures Expanded(Fresh(), s).units == [unit]
  {
    hide Expanded;
    unit := [0x0080, 0x00C0, 0x0400, 0x0600, 0x0900, 0x3040, 0x30A0, 0xFF00][k] + b as int - 0x80;
    var st := Fresh();
    var mode, one := st.(unicode := true), State(false, unit - b + 0x80, st.windows);
    assert s[1..] == [0xE0 + k, b] && [0xE0 + k, b][1..] == [b];
    OneStep(st, s, 1, mode);
    OneStep(mode, [0xE0 + k, b], 1, one);
    LastStep(one, [b], [unit], one);
  }

  // ---------------------------------------------------------------- texts

  /** Every code stands for itself or is in the active window: one byte each. */
  ghost predicate InReach(st: State, text: seq<Unit>) {
    forall i | 0 <= i < |text| :: EncodeAsIs(text[i]) || InWindow(text[i], st.active)
  }

  function Direct(active: nat, text: seq<Unit>): (bytes: seq<int>)
    ensures |bytes| == |text|
    ensures forall i | 0 <= i < |text| :: bytes[i] == if EncodeAsIs(text[i]) then text[i] else text[i] - active + 0x80
  {
    seq(|text|, i requires 0 <= i < |text| => if EncodeAsIs(text[i]) then text[i] else text[i] - active + 0x80)
  }

  lemma {:induction false} DirectChars(st: State, text: seq<Unit>)
    requires |st.windows| == 8 && !st.unicode && st.active >= 0x80 && InReach(st, text)
    ensures Chars(st, text) == Direct(st.active, text)
  {
    hide CharBytes, Direct;
    if text == [] {
      assert Direct(st.active, text) == [];
    } else {
      assert forall i | 0 <= i < |text| - 1 :: text[1..][i] == text[i + 1];
      DirectChars(st, text[1..]);
      DirectChar(st, text[0]);
      DirectBoth(st.active, [text[0]], text[1..]);
      assert [text[0]] + text[1..] == text;
    }
  }

  lemma DirectChar(st: State, code: Unit)
    requires |st.windows| == 8 && !st.unicode && st.active >= 0x80 && (EncodeAsIs(code) || InWindow(code, st.active))
    ensures CharBytes(st, code) == Direct(st.active, [code])
  {
    hide Treatment;
    Treatments(code);
  }

  lemma {:induction false} AllLeading(st: State, text: seq<Unit>)
    requires st.active >= 0x80 && InReach(st, text)
    ensures Leading(st, text) == |text|
  {
    hide Treatment;
    if text != [] {
      Treatments(text[0]);
      assert forall i | 0 <= i < |text| - 1 :: text[1..][i] == text[i + 1];
      AllLeading(st, text[1..]);
    }
  }

  /** A text that the active window reaches takes one byte for each code, and changes nothing. */
  lemma {:induction false} ReachedText(c: Comp, text: seq<Unit>)
    requires CompOk(c) && !c.st.unicode && InReach(c.st, text)
    ensures Compressed(c, text) == Written(Direct(c.st.active, text), c)
    decreases |text|
  {
    hide Batch, Direct, CompOk;
    if text != [] {
      var n: nat := if |text| < 4 then |text| else 4;
      var front, rest := text[..n], text[n..];
      assert forall i | 0 <= i < |rest| :: rest[i] == text[n + i];
      assert forall i | 0 <= i < n :: front[i] == text[i];
      ReachedBatch(c, front);
      ReachedText(c, rest);
      assert text == front + rest;
      DirectBoth(c.st.active, front, rest);
    } else {
      assert Direct(c.st.active, text) == [];
    }
  }

  lemma DirectBoth(active: nat, a: seq<Unit>, b: seq<Unit>)
    ensures Direct(active, a + b) == Direct(active, a) + Direct(active, b)
  {
  }

  lemma {:induction false} ReachedBatch(c: Comp, text: seq<Unit>)
    requires CompOk(c) && !c.st.unicode && InReach(c.st, text)
    ensures Batch(c, text) == Written(Direct(c.st.active, text), c)
  {
    hide Chars, Leading, Direct;
    AllLeading(c.st, text);
    DirectChars(c.st, text);
    assert text[|text|..] == [] && text[..|text|] == text;
    assert Direct(c.st.active, text) + [] == Direct(c.st.active, text);
  }

  /** A new compressor leaves Latin-1 text as it is, but for control characters. */
  method Latin(text: seq<Unit>) returns (bytes: seq<Byte>)
    requires forall i | 0 <= i < |text| :: text[i] in {0x00, 0x09, 0x0A, 0x0D} || 0x20 <= text[i] <= 0xFF
    ensures bytes == text
  {
    var compressor := new Compressor();
    ReachedText(compressor.Now(), text);
    assert Direct(0x80, text) == text;
    hide Compressed, UnitBytes;
    var source := UnitBytes(text);
    UnitsBack(text);
    var written := compressor.Compress(source, |text|);
    bytes := compressor.io.dest;
  }

  /** Reading the bytes of units gives the units. */
  lemma {:induction false} UnitsBack(text: seq<Unit>)
    ensures SourceUnits(UnitBytes(text)) == text
  {
    if text != [] {
      UnitsBack(text[1..]);
      assert UnitBytes(text)[2..] == UnitBytes(text[1..]);
    }
  }

  /** Cyrillic, Arabic and Devanagari: a text of two letters or more is the tag of its window and one byte for each letter. */
  method Alphabet(k: nat, text: seq<Unit>) returns (bytes: seq<Byte>)
    requires 2 <= k <= 4 && |text| >= 2 && forall i | 0 <= i < |text| :: 0 <= text[i] - [0x400, 0x600, 0x900][k - 2] < 0x80
    ensures |bytes| == |text| + 1 && bytes[0] == 0x10 + k
    ensures forall i | 0 <= i < |text| :: bytes[i + 1] == text[i] - [0x400, 0x600, 0x900][k - 2] + 0x80
  {
    var compressor := new Compressor();
    AlphabetText(compressor.Now(), k, text);
    hide Compressed, UnitBytes, Direct;
    UnitsBack(text);
    var written := compressor.Compress(UnitBytes(text), |text| + 1);
    bytes := compressor.io.dest;
    DirectAt([0x400, 0x600, 0x900][k - 2], text);
  }

  lemma DirectAt(active: nat, text: seq<Unit>)
    requires active >= 0x80 && forall i | 0 <= i < |text| :: InWindow(text[i], active)
    ensures forall i | 0 <= i < |text| :: Direct(active, text)[i] == text[i] - active + 0x80
  {
  }

  lemma {:induction false} LetterTreatment(k: nat, code: Unit)
    requires 2 <= k <= 4 && InWindow(code, [0x400, 0x600, 0x900][k - 2])
    ensures Treatment(code) == [8, 12, 18][k - 2] && !InWindow(code, 0x80)
    ensures DynamicWindowBase([8, 12, 18][k - 2]) == [0x400, 0x600, 0x900][k - 2] == DEFAULT_WINDOWS[k]
    ensures FirstBase(DEFAULT_WINDOWS, [0x400, 0x600, 0x900][k - 2], 0) == k
  {
  }

  lemma {:induction false} SameRun(t: int, text: seq<Unit>)
    requires text != [] && forall i | 0 <= i < |text| :: Treatment(text[i]) == t
    ensures RunLength(text) == |text|
  {
    hide Treatment;
  }

  lemma {:induction false} AlphabetText(c: Comp, k: nat, text: seq<Unit>)
    requires c == Comp(Fresh(), 0) && 2 <= k <= 4 && |text| >= 2
    requires forall i | 0 <= i < |text| :: InWindow(text[i], [0x400, 0x600, 0x900][k - 2])
    ensures var w := Compressed(c, text);
            w.bytes == [0x10 + k] + Direct([0x400, 0x600, 0x900][k - 2], text)
  {
    hide Batch, Direct, Compressed, CompOk;
    var n: nat := if |text| < 4 then |text| else 4;
    var front, rest := text[..n], text[n..];
    assert forall i | 0 <= i < |rest| :: rest[i] == text[n + i];
    assert forall i | 0 <= i < n :: front[i] == text[i];
    var after := AlphabetBatch(c, k, front);
    TaggedText(c, after, 0x10 + k, front, rest, text);
  }

  /** After the first letters and the tag of their window the window reaches the others. */
  lemma {:induction false} TaggedText(c: Comp, after: Comp, tag: Byte, front: seq<Unit>, rest: seq<Unit>, text: seq<Unit>)
    requires |c.st.windows| == 8 && c.index < 8 && text == front + rest && |front| == (if |text| < 4 then |text| else 4) && front != []
    requires CompOk(after) && !after.st.unicode
    requires Batch(c, front).bytes == [tag] + Direct(after.st.active, front) && Batch(c, front).next == after
    requires InReach(after.st, rest)
    ensures Compressed(c, text).bytes == [tag] + Direct(after.st.active, text)
  {
    hide Batch, Direct, Compressed, CompOk, InReach;
    ReachedText(after, rest);
    assert text[..|front|] == front && text[|front|..] == rest;
    CompressedBatch(c, text, |front|);
    DirectBoth(after.st.active, front, rest);
  }

  lemma CompressedBatch(c: Comp, text: seq<Unit>, n: nat)
    requires |c.st.windows| == 8 && c.index < 8 && text != [] && n == if |text| < 4 then |text| else 4
    ensures Compressed(c, text).bytes == Batch(c, text[..n]).bytes + Compressed(Batch(c, text[..n]).next, text[n..]).bytes
  {
    hide Batch;
  }

  lemma {:induction false} AlphabetBatch(c: Comp, k: nat, text: seq<Unit>) returns (after: Comp)
    requires c == Comp(Fresh(), 0) && 2 <= k <= 4 && 2 <= |text| <= 4
    requires forall i | 0 <= i < |text| :: InWindow(text[i], [0x400, 0x600, 0x900][k - 2])
    ensures var base := [0x400, 0x600, 0x900][k - 2];
            && after == Comp(State(false, base, DEFAULT_WINDOWS), k) && CompOk(after) && InReach(after.st, text)
            && Batch(c, text) == Written([0x10 + k] + Direct(base, text), after)
  {
    var base, t := [0x400, 0x600, 0x900][k - 2], [8, 12, 18][k - 2];
    after := Comp(State(false, base, DEFAULT_WINDOWS), k);
    forall i | 0 <= i < |text|
      ensures Treatment(text[i]) == t && !InWindow(text[i], 0x80)
    {
      LetterTreatment(k, text[i]);
    }
    LetterTreatment(k, text[0]);
    hide Treatment, DynamicWindowBase, FirstBase, Direct, Chars;
    SameRun(t, text);
    DirectChars(after.st, text);
    assert text[0..] == text && text[..0] == [] && text[..|text|] == text && text[|text|..] == [];
    assert Leading(c.st, text) == 0;
    assert Chars(c.st, []) == [] by {
      NoChars(c.st);
    }
    assert Select(c, t) == Written([0x10 + k], after);
    assert WriteOneRun(c, text) == Written([0x10 + k] + Direct(base, text), after);
    assert Runs(after, []) == Written([], after);
    assert [0x10 + k] + Direct(base, text) + [] == [0x10 + k] + Direct(base, text);
    assert Runs(c, text) == Written([0x10 + k] + Direct(base, text), after);
    assert [] + ([0x10 + k] + Direct(base, text)) == [0x10 + k] + Direct(base, text);
  }

  lemma NoChars(st: State)
    requires |st.windows| == 8
    ensures Chars(st, []) == []
  {
  }

  /** A Russian word and back. */
  method Moscow() returns (bytes: seq<Byte>, units: seq<Byte>)
    ensures bytes == [0x12, 0x9C, 0xBE, 0xC1, 0xBA, 0xB2, 0xB0]
    ensures units == [0x1C, 0x04, 0x3E, 0x04, 0x41, 0x04, 0x3A, 0x04, 0x32, 0x04, 0x30, 0x04]
  {
    var text: seq<Unit> := [0x41C, 0x43E, 0x441, 0x43A, 0x432, 0x430];
    bytes := Alphabet(2, text);
    assert text[0] == 0x41C && text[1] == 0x43E && text[2] == 0x441 && text[3] == 0x43A && text[4] == 0x432 && text[5] == 0x430;
    assert bytes == [bytes[0], bytes[1], bytes[2], bytes[3], bytes[4], bytes[5], bytes[6]];
    MoscowExpanded(bytes, text);
    hide Expanded, UnitBytes;
    var expander := new Expander();
    var consumed, written := expander.Expand(bytes, 13);
    units := expander.io.dest;
  }

  lemma {:induction false} MoscowExpanded(bytes: seq<Byte>, text: seq<Unit>)
    requires bytes == [0x12, 0x9C, 0xBE, 0xC1, 0xBA, 0xB2, 0xB0] && text == [0x41C, 0x43E, 0x441, 0x43A, 0x432, 0x430]
    ensures Expanded(Fresh(), bytes).units == text
    ensures UnitBytes(text) == [0x1C, 0x04, 0x3E, 0x04, 0x41, 0x04, 0x3A, 0x04, 0x32, 0x04, 0x30, 0x04]
  {
    hide Expanded, NextStep, UnitBytes;
    Tagged(bytes, 0x400);
    var letters := bytes[1..];
    assert letters == [0x9C, 0xBE, 0xC1, 0xBA, 0xB2, 0xB0];
    var units := Expanded(Fresh(), bytes).units;
    assert units == [units[0], units[1], units[2], units[3], units[4], units[5]];
    assert letters[0] == 0x9C && letters[1] == 0xBE && letters[2] == 0xC1 && letters[3] == 0xBA && letters[4] == 0xB2 && letters[5] == 0xB0;
    MoscowBytes(text);
  }

  /** Letters behind the tag of the window for Cyrillic. */
  lemma {:induction false} Tagged(s: seq<Byte>, base: nat)
    requires |s| > 0 && s[0] == 0x12 && base == 0x400 && forall i | 1 <= i < |s| :: s[i] >= 0x80
    ensures |Expanded(Fresh(), s).units| == |s| - 1
    ensures forall i | 0 <= i < |s| - 1 :: Expanded(Fresh(), s).units[i] == base + s[1..][i] - 0x80
  {
    hide Expanded;
    var st := Fresh().(active := base);
    OneStep(Fresh(), s, 1, st);
    Letters(st, s[1..]);
  }

  lemma {:induction false} MoscowBytes(text: seq<Unit>)
    requires text == [0x41C, 0x43E, 0x441, 0x43A, 0x432, 0x430]
    ensures UnitBytes(text) == [0x1C, 0x04, 0x3E, 0x04, 0x41, 0x04, 0x3A, 0x04, 0x32, 0x04, 0x30, 0x04]
  {
    assert text[6..] == [];
    assert UnitBytes([]) == [];
    hide UnitBytes;
    UnitAt(text, 5, []);
    UnitAt(text, 4, [0x30, 0x04]);
    UnitAt(text, 3, [0x32, 0x04, 0x30, 0x04]);
    UnitAt(text, 2, [0x3A, 0x04, 0x32, 0x04, 0x30, 0x04]);
    UnitAt(text, 1, [0x41, 0x04, 0x3A, 0x04, 0x32, 0x04, 0x30, 0x04]);
    UnitAt(text, 0, [0x3E, 0x04, 0x41, 0x04, 0x3A, 0x04, 0x32, 0x04, 0x30, 0x04]);
    assert text[0..] == text;
  }

  lemma UnitAt(text: seq<Unit>, i: nat, rest: seq<Byte>)
    requires i < |text| && UnitBytes(text[i + 1..]) == rest
    ensures UnitBytes(text[i..]) == [text[i] % 256, text[i] / 256] + rest
  {
    assert text[i..][1..] == text[i + 1..];
  }

  /** Letters of the active window. */
  lemma {:induction false} Letters(st: State, s: seq<Byte>)
    requires |st.windows| == 8 && !st.unicode && st.active <= 0xFF80 && forall i | 0 <= i < |s| :: s[i] >= 0x80
    ensures |Expanded(st, s).units| == |s|
    ensures forall i | 0 <= i < |s| :: Expanded(st, s).units[i] == st.active + s[i] - 0x80
  {
    if s != [] {
      Letters(st, s[1..]);
      ExpandedStep(st, s);
      assert NextStep(st, s) == Took(1, [st.active + s[0] - 0x80], st);
      hide NextStep, Expanded;
      assert forall i | 0 <= i < |s| - 1 :: s[1..][i] == s[i + 1];
    }
  }
}
