/** The expander follows the compressor in lockstep, exactly as long as no run of plain Unicode is announced twice. */
module ScsuRoundTrip {
  import opened ByteValues
  import opened Scsu

  /** The bytes are understood as `units`, whatever follows, and define no extended window. */
  ghost predicate Reads(st: State, token: seq<Byte>, units: seq<Unit>, next: State)
    requires |st.windows| == 8 && |next.windows| == 8
  {
    forall rest: seq<Byte> ::
      && Expanded(st, token + rest) == Before(units, Expanded(next, rest))
      && DefinesExtension(st, token + rest) == DefinesExtension(next, rest)
  }

  lemma {:induction false} ReadsNothing(st: State)
    requires |st.windows| == 8
    ensures Reads(st, [], [], st)
  {
    hide Expanded, DefinesExtension;
    forall rest: seq<Byte>
      ensures Expanded(st, [] + rest) == Before([], Expanded(st, rest))
      ensures DefinesExtension(st, [] + rest) == DefinesExtension(st, rest)
    {
      assert [] + rest == rest;
      assert [] + Expanded(st, rest).units == Expanded(st, rest).units;
    }
  }

  lemma {:induction false} ReadsBoth(st: State, s: seq<Byte>, us: seq<Unit>, mid: State, t: seq<Byte>, vs: seq<Unit>, next: State)
    requires |st.windows| == |mid.windows| == |next.windows| == 8
    requires Reads(st, s, us, mid) && Reads(mid, t, vs, next)
    ensures Reads(st, s + t, us + vs, next)
  {
    hide Expanded, DefinesExtension;
    forall rest: seq<Byte>
      ensures Expanded(st, s + t + rest) == Before(us + vs, Expanded(next, rest))
      ensures DefinesExtension(st, s + t + rest) == DefinesExtension(next, rest)
    {
      assert s + t + rest == s + (t + rest);
      BeforeTwice(us, vs, Expanded(next, rest));
    }
  }

  /** A step that depends on its token only. */
  lemma {:induction false} ReadsStep(st: State, token: seq<Byte>, units: seq<Unit>, next: State)
    requires token != [] && |st.windows| == 8 && |next.windows| == 8 && !ExtensionTag(st, token[0])
    requires forall rest: seq<Byte> :: NextStep(st, token + rest) == Took(|token|, units, next)
    ensures Reads(st, token, units, next)
  {
    forall rest: seq<Byte>
      ensures Expanded(st, token + rest) == Before(units, Expanded(next, rest))
      ensures DefinesExtension(st, token + rest) == DefinesExtension(next, rest)
    {
      assert NextStep(st, token + rest) == Took(|token|, units, next);
      assert (token + rest)[|token|..] == rest;
    }
  }

  // ---------------------------------------------------------------- characters

  lemma {:induction false} ReadsUnicode(st: State, code: Unit)
    requires |st.windows| == 8 && st.unicode
    ensures Reads(st, UnicodeBytes(code), [code], st)
  {
    var token := UnicodeBytes(code);
    forall rest: seq<Byte>
      ensures NextStep(st, token + rest) == Took(|token|, [code], st)
    {
      var s := token + rest;
      assert s[0] == token[0] && s[1] == token[1];
      if 0xE000 <= code <= 0xF2FF {
        assert s[2] == token[2];
      }
    }
    ReadsStep(st, token, [code], st);
  }

  lemma {:induction false} ReadsSingle(st: State, code: Unit)
    requires |st.windows| == 8 && !st.unicode
    ensures Reads(st, SingleBytes(st, code), [code], st)
  {
    hide Expanded, DefinesExtension, Reads, Treatment, DynamicWindowOffset, DefineWindow, DefineExpansionWindow;
    Treatments(code);
    var token := SingleBytes(st, code);
    forall rest: seq<Byte>
      ensures NextStep(st, token + rest) == Took(|token|, [code], st)
    {
      var s := token + rest;
      assert s[0] == token[0];
      if |token| > 1 {
        assert s[1] == token[1];
      }
      if |token| > 2 {
        assert s[2] == token[2];
      }
    }
    ReadsStep(st, token, [code], st);
  }

  /** Every character is understood, and leaves the state as it is. */
  lemma {:induction false} ReadsChars(st: State, codes: seq<Unit>)
    requires |st.windows| == 8
    ensures Reads(st, Chars(st, codes), codes, st)
  {
    hide Reads, UnicodeBytes, SingleBytes;
    if codes == [] {
      ReadsNothing(st);
    } else {
      if st.unicode {
        ReadsUnicode(st, codes[0]);
      } else {
        ReadsSingle(st, codes[0]);
      }
      ReadsChars(st, codes[1..]);
      ReadsBoth(st, CharBytes(st, codes[0]), [codes[0]], st, Chars(st, codes[1..]), codes[1..], st);
      assert [codes[0]] + codes[1..] == codes;
    }
  }

  // ---------------------------------------------------------------- selections

  /** The bytes before a run bring the expander into the compressor's new state, unless they announce Unicode
      mode while it is on. */
  lemma {:induction false} ReadsSelection(c: Comp, t: int)
    requires CompOk(c) && !(t == PLAIN_UNICODE && c.st.unicode)
    ensures |Select(c, t).next.st.windows| == 8 && Reads(c.st, Select(c, t).bytes, [], Select(c, t).next.st)
  {
    hide DynamicWindowBase, Expanded, DefinesExtension, Reads, Units, Point, QuoteUnicode, DefineExpansionWindow;
    var w := Select(c, t);
    var token := w.bytes;
    if token == [] {
      ReadsNothing(c.st);
    } else {
      forall rest: seq<Byte>
        ensures NextStep(c.st, token + rest) == Took(|token|, [], w.next.st)
      {
        var s := token + rest;
        assert s[0] == token[0];
        if |token| > 1 {
          assert s[1] == token[1];
        }
      }
      ReadsStep(c.st, token, [], w.next.st);
    }
  }

  // ---------------------------------------------------------------- runs

  /** The mode after a run of `n` codes of treatment `t`. */
  ghost function NextMode(unicode: bool, t: int, n: nat): bool {
    if n <= 1 || t >= FIRST_STATIC then unicode else t == PLAIN_UNICODE
  }

  ghost function ModeAfter(unicode: bool, codes: seq<Unit>): bool
    decreases |codes|
  {
    if codes == [] then unicode
    else var n := RunLength(codes); ModeAfter(NextMode(unicode, Treatment(codes[0]), n), codes[n..])
  }

  /** Some run of two or more plain-Unicode codes starts in Unicode mode. */
  ghost predicate AnnouncedTwice(unicode: bool, codes: seq<Unit>)
    decreases |codes|
  {
    codes != [] &&
    var n := RunLength(codes);
    var t := Treatment(codes[0]);
    (n > 1 && t == PLAIN_UNICODE && unicode) || AnnouncedTwice(NextMode(unicode, t, n), codes[n..])
  }

  /** One unit of the text is not what the bytes expand to. */
  ghost predicate Diverges(o: Outcome, text: seq<Unit>) {
    exists k :: 0 <= k < |text| && k < |o.units| && o.units[k] != text[k]
  }

  lemma {:induction false} DivergesBefore(units: seq<Unit>, o: Outcome, text: seq<Unit>)
    requires Diverges(o, text)
    ensures Diverges(Before(units, o), units + text)
  {
    var k :| 0 <= k < |text| && k < |o.units| && o.units[k] != text[k];
    assert Before(units, o).units[|units| + k] == o.units[k] && (units + text)[|units| + k] == text[k];
  }

  lemma {:induction false} DivergesLonger(o: Outcome, text: seq<Unit>, more: seq<Unit>)
    requires Diverges(o, text)
    ensures Diverges(o, text + more)
  {
    var k :| 0 <= k < |text| && k < |o.units| && o.units[k] != text[k];
    assert (text + more)[k] == text[k];
  }

  lemma {:induction false} RunTreatment(code: Unit)
    ensures 0 <= Treatment(code) < 256 ==> ValidBase(DynamicWindowBase(Treatment(code)))
  {
    Treatments(code);
    OffsetFits(code);
  }

  /** A run is understood, unless it announces Unicode mode a second time. */
  lemma {:induction false} ReadsRun(c: Comp, run: seq<Unit>)
    requires CompOk(c) && run != []
    requires !(|run| > 1 && Treatment(run[0]) == PLAIN_UNICODE && c.st.unicode)
    ensures var w := WriteOneRun(c, run);
            && CompOk(w.next) && Reads(c.st, w.bytes, run, w.next.st)
            && w.next.st.unicode == NextMode(c.st.unicode, Treatment(run[0]), |run|)
  {
    hide Reads, Chars, CharBytes, Treatment, DynamicWindowBase;
    if |run| > 1 {
      var t := Treatment(run[0]);
      RunTreatment(run[0]);
      TreatmentRange(run[0]);
      SelectKeeps(c, t);
      ReadsSelection(c, t);
      var sel := Select(c, t);
      ReadsChars(sel.next.st, run);
      ReadsBoth(c.st, sel.bytes, [], sel.next.st, Chars(sel.next.st, run), run, sel.next.st);
      assert [] + run == run;
    } else {
      ReadsChars(c.st, run);
      assert [] + Chars(c.st, run) == Chars(c.st, run);
    }
  }

  lemma {:induction false} TreatmentRange(code: Unit)
    ensures -2 <= Treatment(code) <= 263
  {
    Treatments(code);
  }

  /** The second announcement: the tag and the next byte are taken for a character of their own. */
  lemma {:induction false} SecondAnnouncement(c: Comp, run: seq<Unit>, rest: seq<Byte>)
    requires CompOk(c) && |run| > 1 && Treatment(run[0]) == PLAIN_UNICODE && c.st.unicode
    ensures Diverges(Expanded(c.st, WriteOneRun(c, run).bytes + rest), run)
  {
    Treatments(run[0]);
    var s := WriteOneRun(c, run).bytes + rest;
    assert CharBytes(c.st, run[0]) == BigEndian(run[0]);
    assert s[0] == SCU && s[1] == run[0] / 256;
    assert NextStep(c.st, s) == Took(2, [SCU * 256 + run[0] / 256], c.st);
    assert Expanded(c.st, s).units[0] == SCU * 256 + run[0] / 256;
  }

  lemma {:induction false} RunHead(codes: seq<Unit>)
    requires codes != []
    ensures codes[..RunLength(codes)] + codes[RunLength(codes)..] == codes && codes[..RunLength(codes)][0] == codes[0]
  {
  }

  /** All runs are understood in lockstep, if none announces Unicode mode twice. */
  lemma {:induction false} ReadsRuns(c: Comp, codes: seq<Unit>)
    requires CompOk(c) && !AnnouncedTwice(c.st.unicode, codes)
    ensures var w := Runs(c, codes);
            CompOk(w.next) && Reads(c.st, w.bytes, codes, w.next.st) && w.next.st.unicode == ModeAfter(c.st.unicode, codes)
    decreases |codes|
  {
    hide Reads, WriteOneRun, Treatment, NextMode;
    if codes == [] {
      ReadsNothing(c.st);
    } else {
      var n := RunLength(codes);
      RunHead(codes);
      ReadsRun(c, codes[..n]);
      var first := WriteOneRun(c, codes[..n]);
      ReadsRuns(first.next, codes[n..]);
      var rest := Runs(first.next, codes[n..]);
      ReadsBoth(c.st, first.bytes, codes[..n], first.next.st, rest.bytes, codes[n..], rest.next.st);
    }
  }

  /** Otherwise the expansion goes wrong, whatever follows. */
  lemma {:induction false} RunsDiverge(c: Comp, codes: seq<Unit>, more: seq<Byte>)
    requires CompOk(c) && AnnouncedTwice(c.st.unicode, codes)
    ensures Diverges(Expanded(c.st, Runs(c, codes).bytes + more), codes)
    decreases |codes|
  {
    hide Expanded, WriteOneRun, Treatment, NextMode, Diverges;
    var n := RunLength(codes);
    var run, rest := codes[..n], codes[n..];
    RunHead(codes);
    var first := WriteOneRun(c, run);
    var later := Runs(first.next, rest);
    assert first.bytes + later.bytes + more == first.bytes + (later.bytes + more);
    if n > 1 && Treatment(codes[0]) == PLAIN_UNICODE && c.st.unicode {
      SecondAnnouncement(c, run, later.bytes + more);
      DivergesLonger(Expanded(c.st, first.bytes + (later.bytes + more)), run, rest);
    } else {
      ReadsRun(c, run);
      RunsDiverge(first.next, rest, more);
      DivergesBefore(run, Expanded(first.next.st, later.bytes + more), rest);
    }
  }

  // ---------------------------------------------------------------- batches

  /** Codes that single-byte mode writes without a run are never plain Unicode. */
  lemma {:induction false} LeadingKind(st: State, codes: seq<Unit>)
    requires ValidBase(st.active)
    ensures forall i | 0 <= i < Leading(st, codes) :: Treatment(codes[i]) != PLAIN_UNICODE
  {
    forall i | 0 <= i < Leading(st, codes)
      ensures Treatment(codes[i]) != PLAIN_UNICODE
    {
      Treatments(codes[i]);
    }
  }

  /** In single-byte mode a code that is not plain Unicode does not matter for the modes that follow. */
  lemma {:induction false} DropOne(codes: seq<Unit>)
    requires codes != [] && Treatment(codes[0]) != PLAIN_UNICODE
    ensures AnnouncedTwice(false, codes) == AnnouncedTwice(false, codes[1..])
    ensures ModeAfter(false, codes) == ModeAfter(false, codes[1..])
  {
    hide Treatment;
    var n := RunLength(codes);
    assert NextMode(false, Treatment(codes[0]), n) == false;
    if n > 1 {
      assert RunLength(codes[1..]) == n - 1;
      assert codes[1..][n - 1..] == codes[n..];
      assert NextMode(false, Treatment(codes[0]), n - 1) == false;
    }
  }

  lemma {:induction false} DropLeading(codes: seq<Unit>, k: nat)
    requires k <= |codes| && forall i | 0 <= i < k :: Treatment(codes[i]) != PLAIN_UNICODE
    ensures AnnouncedTwice(false, codes) == AnnouncedTwice(false, codes[k..])
    ensures ModeAfter(false, codes) == ModeAfter(false, codes[k..])
    decreases k
  {
    hide Treatment, AnnouncedTwice, ModeAfter;
    if k == 0 {
      assert codes[0..] == codes;
    } else {
      DropOne(codes);
      DropLeading(codes[1..], k - 1);
      assert codes[1..][k - 1..] == codes[k..];
    }
  }

  lemma {:induction false} ReadsBatch(c: Comp, codes: seq<Unit>)
    requires CompOk(c) && !AnnouncedTwice(c.st.unicode, codes)
    ensures var w := Batch(c, codes);
            CompOk(w.next) && Reads(c.st, w.bytes, codes, w.next.st) && w.next.st.unicode == ModeAfter(c.st.unicode, codes)
  {
    hide Reads, Runs, AnnouncedTwice, ModeAfter, Treatment, Chars;
    if c.st.unicode {
      ReadsRuns(c, codes);
    } else {
      var k := Leading(c.st, codes);
      LeadingKind(c.st, codes);
      DropLeading(codes, k);
      ReadsChars(c.st, codes[..k]);
      ReadsRuns(c, codes[k..]);
      var rest := Runs(c, codes[k..]);
      ReadsBoth(c.st, Chars(c.st, codes[..k]), codes[..k], c.st, rest.bytes, codes[k..], rest.next.st);
      assert codes[..k] + codes[k..] == codes;
    }
  }

  lemma {:induction false} Associative(a: seq<Byte>, b: seq<Byte>, c: seq<Byte>)
    ensures a + b + c == a + (b + c)
  {
  }

  lemma {:induction false} BatchDiverges(c: Comp, codes: seq<Unit>, more: seq<Byte>)
    requires CompOk(c) && AnnouncedTwice(c.st.unicode, codes)
    ensures Diverges(Expanded(c.st, Batch(c, codes).bytes + more), codes)
  {
    hide Expanded, Runs, AnnouncedTwice, Treatment, Chars, Diverges;
    if c.st.unicode {
      RunsDiverge(c, codes, more);
    } else {
      var k := Leading(c.st, codes);
      LeadingKind(c.st, codes);
      DropLeading(codes, k);
      ReadsChars(c.st, codes[..k]);
      RunsDiverge(c, codes[k..], more);
      var rest := Runs(c, codes[k..]).bytes;
      Associative(Chars(c.st, codes[..k]), rest, more);
      DivergesBefore(codes[..k], Expanded(c.st, rest + more), codes[k..]);
      assert codes[..k] + codes[k..] == codes;
    }
  }

  // ---------------------------------------------------------------- whole texts

  /** In some batch of four codes, a run of plain Unicode starts in Unicode mode. */
  ghost predicate TextAnnouncedTwice(unicode: bool, text: seq<Unit>)
    decreases |text|
  {
    text != [] &&
    var n: nat := if |text| < FLUSH_SIZE then |text| else FLUSH_SIZE;
    AnnouncedTwice(unicode, text[..n]) || TextAnnouncedTwice(ModeAfter(unicode, text[..n]), text[n..])
  }

  lemma {:induction false} ReadsText(c: Comp, text: seq<Unit>)
    requires CompOk(c) && !TextAnnouncedTwice(c.st.unicode, text)
    ensures var w := Compressed(c, text); CompOk(w.next) && Reads(c.st, w.bytes, text, w.next.st)
    decreases |text|
  {
    hide Reads, Batch, AnnouncedTwice, ModeAfter;
    if text == [] {
      ReadsNothing(c.st);
    } else {
      var n: nat := if |text| < FLUSH_SIZE then |text| else FLUSH_SIZE;
      ReadsBatch(c, text[..n]);
      var first := Batch(c, text[..n]);
      ReadsText(first.next, text[n..]);
      var rest := Compressed(first.next, text[n..]);
      ReadsBoth(c.st, first.bytes, text[..n], first.next.st, rest.bytes, text[n..], rest.next.st);
      assert text[..n] + text[n..] == text;
    }
  }

  lemma {:induction false} TextDiverges(c: Comp, text: seq<Unit>)
    requires CompOk(c) && TextAnnouncedTwice(c.st.unicode, text)
    ensures Diverges(Expanded(c.st, Compressed(c, text).bytes), text)
    decreases |text|
  {
    hide Batch, AnnouncedTwice, ModeAfter, Expanded, Diverges;
    var n: nat := if |text| < FLUSH_SIZE then |text| else FLUSH_SIZE;
    var first := Batch(c, text[..n]);
    var rest := Compressed(first.next, text[n..]).bytes;
    assert text[..n] + text[n..] == text;
    if AnnouncedTwice(c.st.unicode, text[..n]) {
      BatchDiverges(c, text[..n], rest);
      DivergesLonger(Expanded(c.st, first.bytes + rest), text[..n], text[n..]);
    } else {
      ReadsBatch(c, text[..n]);
      TextDiverges(first.next, text[n..]);
      DivergesBefore(text[..n], Expanded(first.next.st, rest), text[n..]);
    }
  }

  /** Expanding what was compressed restores the text exactly if no run of two or more plain-Unicode codes starts
      in Unicode mode; expander and compressor then agree on mode, active window and all dynamic windows. */
  lemma {:induction false} RoundTrip(c: Comp, text: seq<Unit>)
    requires CompOk(c)
    ensures Expanded(c.st, Compressed(c, text).bytes).units == text <==> !TextAnnouncedTwice(c.st.unicode, text)
    ensures !TextAnnouncedTwice(c.st.unicode, text) ==>
              && Expanded(c.st, Compressed(c, text).bytes) == Outcome(text, Compressed(c, text).next.st, true)
              && CompOk(Compressed(c, text).next)
  {
    hide Compressed, TextAnnouncedTwice;
    var w := Compressed(c, text);
    if TextAnnouncedTwice(c.st.unicode, text) {
      TextDiverges(c, text);
    } else {
      ReadsText(c, text);
      assert w.bytes + [] == w.bytes && text + [] == text;
      assert Expanded(c.st, w.bytes + []) == Before(text, Expanded(w.next.st, []));
    }
  }

  /** What a compressor writes for a text that comes back defines no extended window. */
  lemma {:induction false} NeverExtends(c: Comp, text: seq<Unit>)
    requires CompOk(c) && !TextAnnouncedTwice(c.st.unicode, text)
    ensures !DefinesExtension(c.st, Compressed(c, text).bytes)
  {
    hide Compressed, TextAnnouncedTwice, Expanded;
    ReadsText(c, text);
    var w := Compressed(c, text);
    assert w.bytes + [] == w.bytes;
    assert DefinesExtension(c.st, w.bytes + []) == DefinesExtension(w.next.st, []);
  }

  /** Eight ideographs in a row are enough to go wrong. */
  lemma {:induction false} IdeographsGoWrong(c: Comp, text: seq<Unit>)
    requires CompOk(c) && |text| == 8 && forall i | 0 <= i < 8 :: 0x3400 <= text[i] <= 0xDFFF
    ensures Expanded(c.st, Compressed(c, text).bytes).units != text
  {
    hide Expanded, Compressed, Treatment;
    forall i | 0 <= i < 8
      ensures Treatment(text[i]) == PLAIN_UNICODE
    {
      Treatments(text[i]);
    }
    UniformRun(text[..4]);
    UniformRun(text[4..]);
    assert text[4..][..4] == text[4..];
    assert AnnouncedTwice(true, text[4..]);
    assert ModeAfter(c.st.unicode, text[..4]);
    assert TextAnnouncedTwice(true, text[4..]);
    RoundTrip(c, text);
  }

  lemma {:induction false} UniformRun(codes: seq<Unit>)
    requires codes != [] && forall i | 0 <= i < |codes| :: Treatment(codes[i]) == PLAIN_UNICODE
    ensures RunLength(codes) == |codes|
  {
    hide Treatment;
  }

  // ---------------------------------------------------------------- size

  lemma {:induction false} CharsAtMost(st: State, codes: seq<Unit>, k: nat)
    requires |st.windows| == 8 && forall i | 0 <= i < |codes| :: |CharBytes(st, codes[i])| <= k
    ensures |Chars(st, codes)| <= k * |codes|
  {
    hide CharBytes;
    if codes != [] {
      CharsAtMost(st, codes[1..], k);
      assert k * |codes| == k + k * (|codes| - 1);
    }
  }

  /** The bytes of one code, by treatment. */
  lemma {:induction false} CharSize(st: State, code: Unit)
    requires |st.windows| == 8
    ensures |CharBytes(st, code)| <= 3
    ensures Treatment(code) == PLAIN_ASCII && !st.unicode ==> |CharBytes(st, code)| == 1
    ensures Treatment(code) == PLAIN_UNICODE && st.unicode ==> |CharBytes(st, code)| == 2
    ensures Treatment(code) >= FIRST_STATIC ==> |CharBytes(st, code)| == 2
    ensures 0 <= Treatment(code) < 256 && !st.unicode && st.active == DynamicWindowBase(Treatment(code)) ==> |CharBytes(st, code)| == 1
  {
    Treatments(code);
    OffsetFits(code);
  }

  /** A selection of at most two bytes pays off at once. */
  lemma {:induction false} RunSize(c: Comp, run: seq<Unit>)
    requires CompOk(c) && run != [] && forall i | 0 <= i < |run| :: Treatment(run[i]) == Treatment(run[0])
    ensures |WriteOneRun(c, run).bytes| <= 3 * |run|
  {
    hide Treatment, CharBytes, DynamicWindowBase;
    var t, sel := Treatment(run[0]), Select(c, Treatment(run[0]));
    TreatmentRange(run[0]);
    forall i | 0 <= i < |run|
      ensures |CharBytes(c.st, run[i])| <= 3
    {
      CharSize(c.st, run[i]);
    }
    CharsAtMost(c.st, run, 3);
    if |run| > 1 {
      var k := if t == PLAIN_UNICODE || t >= FIRST_STATIC then 2 else 1;
      forall i | 0 <= i < |run|
        ensures |CharBytes(sel.next.st, run[i])| <= k
      {
        CharSize(sel.next.st, run[i]);
      }
      CharsAtMost(sel.next.st, run, k);
    }
  }

  lemma {:induction false} RunsSize(c: Comp, codes: seq<Unit>)
    requires CompOk(c)
    ensures |Runs(c, codes).bytes| <= 3 * |codes| && CompOk(Runs(c, codes).next)
    decreases |codes|
  {
    hide Treatment, WriteOneRun;
    if codes != [] {
      var n := RunLength(codes);
      RunSize(c, codes[..n]);
      RunKeeps(c, codes[..n]);
      RunsSize(WriteOneRun(c, codes[..n]).next, codes[n..]);
    }
  }

  lemma {:induction false} RunKeeps(c: Comp, run: seq<Unit>)
    requires CompOk(c) && run != []
    ensures CompOk(WriteOneRun(c, run).next)
  {
    hide Treatment, DynamicWindowBase, Chars;
    RunTreatment(run[0]);
    SelectKeeps(c, Treatment(run[0]));
  }

  /** At most three bytes are written for every unit, and the compressor's invariant holds after any text. */
  lemma {:induction false} AtMostThreeBytesEach(c: Comp, text: seq<Unit>)
    requires CompOk(c)
    ensures |Compressed(c, text).bytes| <= 3 * |text| && CompOk(Compressed(c, text).next)
    decreases |text|
  {
    hide Runs, Chars, CharBytes, Batch;
    if text != [] {
      var n: nat := if |text| < FLUSH_SIZE then |text| else FLUSH_SIZE;
      BatchSize(c, text[..n]);
      AtMostThreeBytesEach(Batch(c, text[..n]).next, text[n..]);
    }
  }

  lemma {:induction false} BatchSize(c: Comp, codes: seq<Unit>)
    requires CompOk(c)
    ensures |Batch(c, codes).bytes| <= 3 * |codes| && CompOk(Batch(c, codes).next)
  {
    hide Runs, Chars, CharBytes, Treatment;
    if c.st.unicode {
      RunsSize(c, codes);
    } else {
      var k := Leading(c.st, codes);
      RunsSize(c, codes[k..]);
      forall i | 0 <= i < k
        ensures |CharBytes(c.st, codes[i])| <= 3
      {
        CharSize(c.st, codes[i]);
      }
      CharsAtMost(c.st, codes[..k], 3);
    }
  }
}
