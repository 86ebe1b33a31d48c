/** The Standard Compression Scheme for Unicode (Unicode Technical Standard #6), as the compressor and the
    expander use it: windows, treatments, and the meaning of a byte sequence. */
module Scsu {
  import opened ByteValues

  type Unit = x: int | 0 <= x < 0x10000

  const SPECIAL_BASES: seq<nat> := [0x00C0, 0x0250, 0x0370, 0x0530, 0x3040, 0x30A0, 0xFF60]
  const STATIC_WINDOWS: seq<nat> := [0x0000, 0x0080, 0x0100, 0x0300, 0x2000, 0x2080, 0x2100, 0x3000]
  const DEFAULT_WINDOWS: seq<nat> := [0x0080, 0x00C0, 0x0400, 0x0600, 0x0900, 0x3040, 0x30A0, 0xFF00]

  const UDX: nat := 0xF1
  const UQU: nat := 0xF0
  const UD0: nat := 0xE8
  const UC0: nat := 0xE0
  const SD0: nat := 0x18
  const SC0: nat := 0x10
  const SCU: nat := 0x0F
  const SQU: nat := 0x0E
  const SDX: nat := 0x0B
  const SQ0: nat := 0x01

  const PLAIN_ASCII := -2
  const PLAIN_UNICODE := -1
  const FIRST_STATIC := 256

  // ---------------------------------------------------------------- windows

  predicate InWindow(code: int, base: int) {
    base <= code < base + 128
  }

  predicate EncodeAsIs(code: nat) {
    code == 0 || code == 9 || code == 0xA || code == 0xD || 0x20 <= code <= 0x7F
  }

  /** The base that an offset byte stands for. */
  function DynamicWindowBase(offset: nat): nat {
    if 0xF9 <= offset <= 0xFF then SPECIAL_BASES[offset - 0xF9]
    else if 0x01 <= offset <= 0x67 then offset * 0x80
    else if 0x68 <= offset <= 0xA7 then offset * 0x80 + 0xAC00
    else 0
  }

  /** The first of the listed windows, from `i` on, that contains the code; -1 if none does. */
  function FirstWindow(windows: seq<nat>, code: nat, i: nat): (r: int)
    requires i <= |windows|
    ensures -1 <= r < |windows|
    ensures r >= 0 ==> i <= r && InWindow(code, windows[r])
    ensures forall j | i <= j < (if r >= 0 then r else |windows|) :: !InWindow(code, windows[j])
    decreases |windows| - i
  {
    if i == |windows| then -1 else if InWindow(code, windows[i]) then i else FirstWindow(windows, code, i + 1)
  }

  /** The offset byte of a window for the code, or -1 if it can have none. */
  function DynamicWindowOffset(code: Unit): int {
    if code < 0x80 then -1
    else if 0x3400 <= code <= 0xDFFF then -1
    else
      var special := FirstWindow(SPECIAL_BASES, code, 0);
      if special >= 0 then 0xF9 + special
      else if code >= 0xE000 then (code - 0xAC00) / 0x80
      else code / 0x80
  }

  /** A code's offset byte stands for a window that contains the code. */
  lemma {:induction false} OffsetFits(code: Unit)
    ensures DynamicWindowOffset(code) == -1 <==> code < 0x80 || 0x3400 <= code <= 0xDFFF
    ensures var offset := DynamicWindowOffset(code);
            offset != -1 ==> 0 < offset < 256 && InWindow(code, DynamicWindowBase(offset)) && ValidBase(DynamicWindowBase(offset))
  {
  }

  /** Windows the compressor ever selects: none reaches into the codes that are always plain Unicode. */
  predicate ValidBase(base: nat) {
    0x80 <= base <= 0x3380 || 0xE000 <= base < 0x10000
  }

  /** How a code is to be written: as itself, in Unicode mode, through a dynamic or a static window. */
  function Treatment(code: Unit): int {
    if EncodeAsIs(code) then PLAIN_ASCII
    else
      var offset := DynamicWindowOffset(code);
      if offset != -1 then offset
      else
        var window := FirstWindow(STATIC_WINDOWS, code, 0);
        if window == -1 then PLAIN_UNICODE else window + FIRST_STATIC
  }

  /** The kinds of codes: only control characters use a static window, and only the first. */
  lemma {:induction false} Treatments(code: Unit)
    ensures Treatment(code) == PLAIN_ASCII <==> EncodeAsIs(code)
    ensures Treatment(code) == PLAIN_UNICODE <==> 0x3400 <= code <= 0xDFFF
    ensures 0 <= Treatment(code) < 256 <==> (0x80 <= code < 0x3400 || 0xE000 <= code)
    ensures 0 <= Treatment(code) < 256 ==> Treatment(code) == DynamicWindowOffset(code)
    ensures Treatment(code) >= 256 <==> code < 0x20 && !EncodeAsIs(code)
    ensures Treatment(code) >= 256 ==> Treatment(code) == FIRST_STATIC
    ensures -2 <= Treatment(code) <= 263
  {
    OffsetFits(code);
  }

  // ---------------------------------------------------------------- what the compressor writes

  /** What compressor and expander share: the mode, the active window's base and the dynamic windows. */
  datatype State = State(unicode: bool, active: nat, windows: seq<nat>)

  /** The compressor also knows the index of its active window. */
  datatype Comp = Comp(st: State, index: nat)

  /** The active window is the indexed one, and no window reaches into plain Unicode. */
  ghost predicate CompOk(c: Comp) {
    && |c.st.windows| == 8 && c.index < 8 && c.st.active == c.st.windows[c.index]
    && forall i | 0 <= i < 8 :: ValidBase(c.st.windows[i])
  }

  /** Bytes and the state after them. */
  datatype Written = Written(bytes: seq<Byte>, next: Comp)

  function BigEndian(code: Unit): seq<Byte> {
    [code / 256, code % 256]
  }

  /** A code in Unicode mode; those that look like a tag are quoted. */
  function UnicodeBytes(code: Unit): seq<Byte> {
    (if 0xE000 <= code <= 0xF2FF then [UQU] else []) + BigEndian(code)
  }

  /** A code in single-byte mode. */
  function SingleBytes(st: State, code: Unit): seq<Byte>
    requires |st.windows| == 8
  {
    var t := Treatment(code);
    if t == PLAIN_ASCII then [code % 256]
    else if t >= FIRST_STATIC then
      Treatments(code);
      [SQ0 + (t - FIRST_STATIC), code % 256]
    else if InWindow(code, st.active) then [code - st.active + 0x80]
    else
      var i := FirstWindow(st.windows, code, 0);
      if i >= 0 then [SQ0 + i, code - st.windows[i] + 0x80] else [SQU] + BigEndian(code)
  }

  function CharBytes(st: State, code: Unit): seq<Byte>
    requires |st.windows| == 8
  {
    if st.unicode then UnicodeBytes(code) else SingleBytes(st, code)
  }

  function Chars(st: State, codes: seq<Unit>): seq<Byte>
    requires |st.windows| == 8
  {
    if codes == [] then [] else CharBytes(st, codes[0]) + Chars(st, codes[1..])
  }

  /** The first window with the given base, from `i` on; -1 if there is none. */
  function FirstBase(windows: seq<nat>, base: nat, i: nat): (r: int)
    requires i <= |windows|
    ensures -1 <= r < |windows|
    ensures r >= 0 ==> i <= r && windows[r] == base
    ensures forall j | i <= j < (if r >= 0 then r else |windows|) :: windows[j] != base
    decreases |windows| - i
  {
    if i == |windows| then -1 else if windows[i] == base then i else FirstBase(windows, base, i + 1)
  }

  /** Preparing for a run of codes of one treatment. */
  function Select(c: Comp, t: int): (w: Written)
    requires |c.st.windows| == 8 && c.index < 8
    ensures |w.next.st.windows| == 8 && w.next.index < 8
  {
    var st := c.st;
    if t == PLAIN_UNICODE then Written([SCU], c.(st := st.(unicode := true)))
    else if t == PLAIN_ASCII then
      if st.unicode then Written([UC0 + c.index], c.(st := st.(unicode := false))) else Written([], c)
    else if 0 <= t < 256 then
      var base := DynamicWindowBase(t);
      var i := FirstBase(st.windows, base, 0);
      if i >= 0 then
        Written(if st.unicode then [UC0 + i] else if i != c.index then [SC0 + i] else [], Comp(State(false, base, st.windows), i))
      else
        Written([if st.unicode then UD0 + 4 else SD0 + 4, t], Comp(State(false, base, st.windows[4 := base]), 4))
    else Written([], c)
  }

  /** How many codes from the start on have the treatment of the first. */
  function RunLength(codes: seq<Unit>): (n: nat)
    requires codes != []
    ensures 1 <= n <= |codes|
    ensures forall i | 0 <= i < n :: Treatment(codes[i]) == Treatment(codes[0])
    ensures n < |codes| ==> Treatment(codes[n]) != Treatment(codes[0])
  {
    if |codes| > 1 && Treatment(codes[1]) == Treatment(codes[0]) then 1 + RunLength(codes[1..]) else 1
  }

  /** One run, with what prepares for it if it is longer than one code. */
  function WriteOneRun(c: Comp, run: seq<Unit>): (w: Written)
    requires |c.st.windows| == 8 && c.index < 8 && run != []
    ensures |w.next.st.windows| == 8 && w.next.index < 8
  {
    var selected := if |run| > 1 then Select(c, Treatment(run[0])) else Written([], c);
    Written(selected.bytes + Chars(selected.next.st, run), selected.next)
  }

  lemma {:induction false} SelectKeeps(c: Comp, t: int)
    requires CompOk(c)
    requires 0 <= t < 256 ==> ValidBase(DynamicWindowBase(t))
    ensures CompOk(Select(c, t).next)
  {
  }

  function Runs(c: Comp, codes: seq<Unit>): (w: Written)
    requires |c.st.windows| == 8 && c.index < 8
    ensures |w.next.st.windows| == 8 && w.next.index < 8
    decreases |codes|
  {
    if codes == [] then Written([], c)
    else
      var n := RunLength(codes);
      var first := WriteOneRun(c, codes[..n]);
      var rest := Runs(first.next, codes[n..]);
      Written(first.bytes + rest.bytes, rest.next)
  }

  /** How many codes can be written at once in single-byte mode: ASCII, and those in the active window. */
  function Leading(st: State, codes: seq<Unit>): (n: nat)
    ensures n <= |codes|
    ensures forall i | 0 <= i < n :: EncodeAsIs(codes[i]) || InWindow(codes[i], st.active)
  {
    if codes != [] && (Treatment(codes[0]) == PLAIN_ASCII || InWindow(codes[0], st.active)) then
      Treatments(codes[0]);
      1 + Leading(st, codes[1..])
    else 0
  }

  /** What is written for at most four codes that were collected. */
  function Batch(c: Comp, codes: seq<Unit>): (w: Written)
    requires |c.st.windows| == 8 && c.index < 8
    ensures |w.next.st.windows| == 8 && w.next.index < 8
  {
    if c.st.unicode then Runs(c, codes)
    else
      var n := Leading(c.st, codes);
      var rest := Runs(c, codes[n..]);
      Written(Chars(c.st, codes[..n]) + rest.bytes, rest.next)
  }

  const FLUSH_SIZE: nat := 4

  /** All batches. */
  function Compressed(c: Comp, codes: seq<Unit>): (w: Written)
    requires |c.st.windows| == 8 && c.index < 8
    ensures |w.next.st.windows| == 8 && w.next.index < 8
    decreases |codes|
  {
    if codes == [] then Written([], c)
    else
      var n: nat := if |codes| < FLUSH_SIZE then |codes| else FLUSH_SIZE;
      var first := Batch(c, codes[..n]);
      var rest := Compressed(first.next, codes[n..]);
      Written(first.bytes + rest.bytes, rest.next)
  }

  // ---------------------------------------------------------------- what the expander makes of bytes

  /** One tag or character: how many bytes it takes, the units it stands for, and the state after it. */
  datatype Step = Stopped | Took(used: nat, units: seq<Unit>, next: State)

  /** A code point as one unit or a surrogate pair. */
  function Units(v: nat): (us: seq<Unit>) {
    if v <= 0xFFFF then [v]
    else if v <= 0x10FFFF then [0xD800 + (v - 0x10000) / 0x400, 0xDC00 + (v - 0x10000) % 0x400]
    else []
  }

  /** A step that stands for a code point, if that is one. */
  function Point(used: nat, v: nat, next: State): Step {
    if v <= 0x10FFFF then Took(used, Units(v), next) else Stopped
  }

  function DefineWindow(st: State, s: seq<Byte>, i: nat): Step
    requires |s| > 0 && |st.windows| == 8 && i < 8
  {
    if |s| < 2 then Stopped
    else var base := DynamicWindowBase(s[1]); Took(2, [], State(false, base, st.windows[i := base]))
  }

  function DefineExpansionWindow(st: State, s: seq<Byte>): Step
    requires |s| > 0 && |st.windows| == 8
  {
    if |s| < 3 then Stopped
    else
      var base := 0x1000 + 0x80 * (s[1] as int % 32 * 0x100 + s[2]);
      Took(3, [], State(false, base, st.windows[s[1] / 32 := base]))
  }

  function QuoteUnicode(st: State, s: seq<Byte>): Step
    requires |s| > 0
  {
    if |s| < 3 then Stopped else Took(3, [s[1] as int * 256 + s[2]], st)
  }

  /** A byte in Unicode mode. */
  function UnicodeStep(st: State, s: seq<Byte>): Step
    requires |s| > 0 && |st.windows| == 8
  {
    var b := s[0];
    if b <= 0xDF || b >= 0xF3 then if |s| < 2 then Stopped else Took(2, [b * 256 + s[1]], st)
    else if b == UQU then QuoteUnicode(st, s)
    else if UC0 <= b <= UC0 + 7 then Took(1, [], State(false, st.windows[b - UC0], st.windows))
    else if UD0 <= b <= UD0 + 7 then DefineWindow(st, s, b - UD0)
    else if b == UDX then DefineExpansionWindow(st, s)
    else Stopped
  }

  /** A byte in single-byte mode. */
  function SingleStep(st: State, s: seq<Byte>): Step
    requires |s| > 0 && |st.windows| == 8
  {
    var b := s[0];
    if EncodeAsIs(b) then Took(1, [b], st)
    else if b >= 0x80 then Point(1, st.active + b - 0x80, st)
    else if b == SQU then QuoteUnicode(st, s)
    else if b == SCU then Took(1, [], st.(unicode := true))
    else if SQ0 <= b <= SQ0 + 7 then
      if |s| < 2 then Stopped
      else if s[1] <= 0x7F then Point(2, s[1] + STATIC_WINDOWS[b - SQ0], st)
      else Point(2, s[1] as int + st.windows[b - SQ0] - 0x80, st)
    else if SC0 <= b <= SC0 + 7 then Took(1, [], st.(active := st.windows[b - SC0]))
    else if SD0 <= b <= SD0 + 7 then DefineWindow(st, s, b - SD0)
    else if b == SDX then DefineExpansionWindow(st, s)
    else Stopped
  }

  function NextStep(st: State, s: seq<Byte>): (r: Step)
    requires |s| > 0 && |st.windows| == 8
    ensures r.Took? ==> 1 <= r.used <= |s| && |r.next.windows| == 8
  {
    if st.unicode then UnicodeStep(st, s) else SingleStep(st, s)
  }

  /** All units, the last state, and whether every byte was understood. */
  datatype Outcome = Outcome(units: seq<Unit>, state: State, complete: bool)

  function Before(units: seq<Unit>, o: Outcome): Outcome {
    o.(units := units + o.units)
  }

  function Expanded(st: State, s: seq<Byte>): Outcome
    requires |st.windows| == 8
    decreases |s|
  {
    if s == [] then Outcome([], st, true)
    else
      match NextStep(st, s)
      case Stopped => Outcome([], st, false)
      case Took(used, units, next) => Before(units, Expanded(next, s[used..]))
  }

  // ---------------------------------------------------------------- extended windows

  /** The tag that defines a window outside the sixteen bits, in either mode. */
  predicate ExtensionTag(st: State, b: Byte) {
    b == if st.unicode then UDX else SDX
  }

  /** The expander comes across a definition of an extended window. */
  ghost predicate DefinesExtension(st: State, s: seq<Byte>)
    requires |st.windows| == 8
    decreases |s|
  {
    s != [] && (ExtensionTag(st, s[0]) ||
      match NextStep(st, s)
      case Stopped => false
      case Took(used, _, next) => DefinesExtension(next, s[used..]))
  }

  /** Where the window of a definition starts according to Unicode Technical Standard #6. */
  function StandardExtensionBase(hi: Byte, lo: Byte): nat {
    0x10000 + 0x80 * (hi as int % 32 * 0x100 + lo)
  }

  /** The code puts every extended window 0xF000 below the standard's place. */
  lemma ExtensionTooLow(st: State, hi: Byte, lo: Byte, rest: seq<Byte>)
    requires |st.windows| == 8
    ensures
      var tag: Byte := if st.unicode then UDX else SDX;
      var step := NextStep(st, [tag, hi, lo] + rest);
      && step.Took? && step.used == 3 && step.units == [] && !step.next.unicode
      && step.next.active == StandardExtensionBase(hi, lo) - 0xF000
      && step.next.windows == st.windows[hi / 32 := step.next.active]
  {
  }

  /** No character of an extended window is expanded to what the standard says. */
  lemma {:induction false} ExtensionNeverConforms(st: State, hi: Byte, lo: Byte, b: Byte)
    requires |st.windows| == 8 && b >= 0x80
    ensures
      var tag: Byte := if st.unicode then UDX else SDX;
      var meant := StandardExtensionBase(hi, lo) + b - 0x80;
      && Expanded(st, [tag, hi, lo, b]).units == Units(meant - 0xF000)
      && Units(meant - 0xF000) != Units(meant)
  {
    hide Expanded, NextStep, Units;
    var tag: Byte := if st.unicode then UDX else SDX;
    ExtensionTooLow(st, hi, lo, [b]);
    assert [tag, hi, lo] + [b] == [tag, hi, lo, b];
    var step := NextStep(st, [tag, hi, lo, b]);
    assert [tag, hi, lo, b][3..] == [b];
    ExpandedStep(st, [tag, hi, lo, b]);
    WindowCharacter(step.next, b);
    assert [] + Units(step.next.active + b - 0x80) == Units(step.next.active + b - 0x80);
    UnitsDiffer(StandardExtensionBase(hi, lo) + b - 0x80);
  }

  lemma ExpandedStep(st: State, s: seq<Byte>)
    requires |st.windows| == 8 && s != [] && NextStep(st, s).Took?
    ensures Expanded(st, s) == Before(NextStep(st, s).units, Expanded(NextStep(st, s).next, s[NextStep(st, s).used..]))
  {
  }

  lemma WindowCharacter(st: State, b: Byte)
    requires |st.windows| == 8 && !st.unicode && b >= 0x80 && st.active <= 0x10FF80
    ensures Expanded(st, [b]).units == Units(st.active + b - 0x80)
  {
    assert [b][1..] == [];
    assert Units(st.active + b - 0x80) + [] == Units(st.active + b - 0x80);
  }

  lemma UnitsDiffer(v: nat)
    requires 0x10000 <= v <= 0x10FFFF
    ensures Units(v - 0xF000) != Units(v)
  {
  }

  /** The first character of the first extended window: U+1000 instead of U+10000. */
  lemma FirstExtension(st: State)
    requires |st.windows| == 8 && !st.unicode
    ensures Expanded(st, [SDX, 0, 0, 0x80]).units == [0x1000]
    ensures Units(StandardExtensionBase(0, 0)) == [0xD800, 0xDC00]
  {
    hide Expanded;
    ExtensionNeverConforms(st, 0, 0, 0x80);
  }

  lemma {:induction false} BeforeTwice(a: seq<Unit>, b: seq<Unit>, o: Outcome)
    ensures Before(a, Before(b, o)) == Before(a + b, o)
  {
    assert a + (b + o.units) == a + b + o.units;
  }
}
