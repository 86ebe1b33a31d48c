/** The expander: one byte at a time, in single-byte or Unicode mode. */
module ScsuExpander {
  import opened ByteValues
  import opened Scsu
  import opened ScsuStream

  class Expander {
    const io: UnicodeStream
    const dynamicWindows: array<nat>
    var unicodeMode: bool
    var activeWindowBase: nat

    constructor ()
      ensures fresh(io) && fresh(dynamicWindows) && Valid() && St() == State(false, 0x80, DEFAULT_WINDOWS)
    {
      io := new UnicodeStream();
      dynamicWindows := new nat[8](i requires 0 <= i < 8 => DEFAULT_WINDOWS[i]);
      unicodeMode, activeWindowBase := false, 0x80;
      new;
      assert dynamicWindows[..] == DEFAULT_WINDOWS;
    }

    ghost predicate Valid()
      reads this
    {
      dynamicWindows.Length == 8
    }

    ghost function St(): State
      reads this, dynamicWindows
    {
      State(unicodeMode, activeWindowBase, dynamicWindows[..])
    }

    /** What is left of the source from position `at` on. */
    ghost function From(at: nat): seq<Byte>
      requires at <= |io.source|
      reads io`source
    {
      io.source[at..]
    }

    /** Writes a code point as one unit or a surrogate pair. */
    method WriteByte32(v: nat) returns (ok: bool)
      modifies io`dest, io`room
      ensures v > 0x10FFFF ==> !ok && io.dest == old(io.dest) && io.room == old(io.room)
      ensures v <= 0x10FFFF ==> Wrote(old(io.dest), old(io.room), io.dest, io.room, UnitBytes(Units(v)), ok)
    {
      if v <= 0xFFFF {
        UnitBytesOne(v);
        ok := io.WriteByte(v);
      } else if v <= 0x10FFFF {
        var high, low := 0xD800 + (v - 0x10000) / 0x400, 0xDC00 + (v - 0x10000) % 0x400;
        UnitBytesOne(high);
        UnitBytesOne(low);
        UnitBytesConcat([high], [low]);
        ok := io.WriteByte(high);
        if ok {
          ok := io.WriteByte(low);
        }
      } else {
        ok := false;
      }
    }

    /** A handler's result, for the step `NextStep` prescribes at position `at`. */
    twostate predicate Handled(at: nat, step: Step, ok: bool)
      reads this, dynamicWindows, io
    {
      && at < io.pointer <= |io.source|
      && match step
         case Stopped => !ok && io.dest == old(io.dest) && io.room == old(io.room)
         case Took(used, units, next) =>
           && Wrote(old(io.dest), old(io.room), io.dest, io.room, UnitBytes(units), ok)
           && (ok ==> io.pointer == at + used && St() == next)
    }

    method QuoteUnicode() returns (ok: bool)
      requires Valid() && 1 <= io.pointer <= |io.source|
      modifies io`dest, io`room, io`pointer
      ensures Handled(old(io.pointer) - 1, Scsu.QuoteUnicode(old(St()), From(old(io.pointer) - 1)), ok)
    {
      var high, low;
      ok, high := io.ReadByte();
      if ok {
        ok, low := io.ReadByte();
        if ok {
          var c: Unit := high as int * 256 + low as int;
          UnitBytesOne(c);
          ok := io.WriteByte(c);
        }
      }
    }

    method DefineWindow(index: nat) returns (ok: bool)
      requires Valid() && 1 <= io.pointer <= |io.source| && index < 8
      modifies this`unicodeMode, this`activeWindowBase, dynamicWindows, io`pointer
      ensures Handled(old(io.pointer) - 1, Scsu.DefineWindow(old(St()), From(old(io.pointer) - 1), index), ok)
    {
      var win;
      ok, win := io.ReadByte();
      if ok {
        unicodeMode := false;
        activeWindowBase := DynamicWindowBase(win);
        dynamicWindows[index] := activeWindowBase;
        assert dynamicWindows[..] == old(dynamicWindows[..])[index := activeWindowBase];
      }
    }

    method DefineExpansionWindow() returns (ok: bool)
      requires Valid() && 1 <= io.pointer <= |io.source|
      modifies this`unicodeMode, this`activeWindowBase, dynamicWindows, io`pointer
      ensures Handled(old(io.pointer) - 1, Scsu.DefineExpansionWindow(old(St()), From(old(io.pointer) - 1)), ok)
    {
      var hi, lo;
      ok, hi := io.ReadByte();
      if ok {
        ok, lo := io.ReadByte();
        if ok {
          unicodeMode := false;
          activeWindowBase := 0x1000 + 0x80 * (hi as int % 32 * 0x100 + lo);
          dynamicWindows[hi / 32] := activeWindowBase;
          assert dynamicWindows[..] == old(dynamicWindows[..])[hi / 32 := activeWindowBase];
        }
      }
    }

    /** A byte in Unicode mode. */
    method HandleUByte(ubyte: Byte) returns (ok: bool)
      requires Valid() && 1 <= io.pointer <= |io.source| && io.source[io.pointer - 1] == ubyte
      modifies this`unicodeMode, this`activeWindowBase, dynamicWindows, io`dest, io`room, io`pointer
      ensures Handled(old(io.pointer) - 1, UnicodeStep(old(St()), From(old(io.pointer) - 1)), ok)
    {
      hide UnitBytes, DynamicWindowBase;
      if ubyte <= 0xDF || ubyte >= 0xF3 {
        var low;
        ok, low := io.ReadByte();
        if ok {
          ok := WriteUnit(ubyte as int * 256 + low as int);
        }
      } else if ubyte == UQU {
        ok := QuoteUnicode();
      } else if UC0 <= ubyte <= UC0 + 7 {
        activeWindowBase := dynamicWindows[ubyte - UC0];
        unicodeMode := false;
        NoUnits(io.dest, io.room);
        ok := true;
      } else if UD0 <= ubyte <= UD0 + 7 {
        ok := DefineWindow(ubyte - UD0);
      } else if ubyte == UDX {
        ok := DefineExpansionWindow();
      } else {
        ok := false;
      }
    }

    method WriteUnit(u: Unit) returns (ok: bool)
      modifies io`dest, io`room
      ensures Wrote(old(io.dest), old(io.room), io.dest, io.room, UnitBytes([u]), ok)
    {
      UnitBytesOne(u);
      ok := io.WriteByte(u);
    }

    lemma {:induction false} NoUnits(dest: seq<Byte>, room: nat)
      ensures Wrote(dest, room, dest, room, UnitBytes([]), true)
    {
    }

    /** A byte in single-byte mode. */
    method HandleSByte(sbyte: Byte) returns (ok: bool)
      requires Valid() && 1 <= io.pointer <= |io.source| && io.source[io.pointer - 1] == sbyte
      modifies this`unicodeMode, this`activeWindowBase, dynamicWindows, io`dest, io`room, io`pointer
      ensures Handled(old(io.pointer) - 1, SingleStep(old(St()), From(old(io.pointer) - 1)), ok)
    {
      hide UnitBytes, DynamicWindowBase, Units;
      if EncodeAsIs(sbyte) {
        ok := WriteUnit(sbyte);
      } else if sbyte >= 0x80 {
        ok := WriteByte32(activeWindowBase + sbyte - 0x80);
      } else if sbyte == SQU {
        ok := QuoteUnicode();
      } else if sbyte == SCU {
        unicodeMode := true;
        NoUnits(io.dest, io.room);
        ok := true;
      } else if SQ0 <= sbyte <= SQ0 + 7 {
        var b;
        ok, b := io.ReadByte();
        if ok {
          var window := sbyte - SQ0;
          ok := WriteByte32(if b <= 0x7F then b + STATIC_WINDOWS[window] else b as int + dynamicWindows[window] - 0x80);
        }
      } else if SC0 <= sbyte <= SC0 + 7 {
        activeWindowBase := dynamicWindows[sbyte - SC0];
        NoUnits(io.dest, io.room);
        ok := true;
      } else if SD0 <= sbyte <= SD0 + 7 {
        ok := DefineWindow(sbyte - SD0);
      } else if sbyte == SDX {
        ok := DefineExpansionWindow();
      } else {
        ok := false;
      }
    }

    /** The output so far is that of `done`, and the rest of the source continues it to `full`. */
    ghost predicate Expanding(source: seq<Byte>, destSize: nat, done: seq<Unit>, full: Outcome)
      reads this, dynamicWindows, io
    {
      && Valid() && io.source == source && io.pointer <= |source|
      && full == Before(done, Expanded(St(), From(io.pointer)))
      && Wrote([], destSize, io.dest, io.room, UnitBytes(done), true)
    }

    /** One byte and what belongs to it. */
    method HandleByte(ghost source: seq<Byte>, ghost destSize: nat, ghost done: seq<Unit>, ghost full: Outcome)
      returns (ok: bool, ghost done': seq<Unit>)
      requires Expanding(source, destSize, done, full) && io.pointer < |source|
      modifies this`unicodeMode, this`activeWindowBase, dynamicWindows, io`dest, io`room, io`pointer
      ensures ok ==> Expanding(source, destSize, done', full)
      ensures !ok ==> Ended(destSize, io.dest, io.room, full)
      ensures old(io.pointer) < io.pointer <= |source|
    {
      hide UnitBytes, UnicodeStep, SingleStep, Wrote;
      ghost var st, at := St(), io.pointer;
      ghost var step := NextStep(st, From(at));
      done' := done;
      var b;
      ok, b := io.ReadByte();
      label L:
      if unicodeMode {
        ok := HandleUByte(b);
      } else {
        ok := HandleSByte(b);
      }
      if step.Took? {
        UnitBytesConcat(done, step.units);
        WroteBoth([], destSize, old@L(io.dest), old@L(io.room), io.dest, io.room, UnitBytes(done), UnitBytes(step.units), ok);
        assert From(at)[step.used..] == From(at + step.used);
        ghost var tail := Expanded(step.next, From(at + step.used));
        BeforeTwice(done, step.units, tail);
        if ok {
          done' := done + step.units;
        } else {
          CutOff(destSize, io.dest, io.room, done + step.units, full, tail);
        }
      } else {
        assert full.units == done;
        StoppedEarly(destSize, io.dest, io.room, full);
      }
    }

    /** Expands a source into a destination with so much room. The output is the expansion, cut off at the room;
        with room to spare, everything that can be understood is consumed. */
    method Expand(source: seq<Byte>, destSize: nat) returns (consumed: nat, written: nat)
      requires Valid()
      modifies this`unicodeMode, this`activeWindowBase, dynamicWindows, io
      ensures var full := Expanded(State(false, old(activeWindowBase), old(dynamicWindows[..])), source);
              && written == |io.dest| && io.dest == UnitBytes(full.units)[..Least(|UnitBytes(full.units)|, destSize)]
              && (full.complete && |UnitBytes(full.units)| < destSize ==> consumed == |source| && St() == full.state)
    {
      hide UnitBytes, UnicodeStep, SingleStep, Expanded;
      io.source, io.pointer, io.dest, io.room := source, 0, [], destSize;
      unicodeMode := false;
      ghost var full := Expanded(St(), source);
      ghost var done: seq<Unit> := [];
      assert From(0) == source && [] + full.units == full.units;
      NoUnits([], destSize);
      var running := true;
      while running && io.room > 0
        invariant io.source == source && Valid() && io.pointer <= |source|
        invariant if running then Expanding(source, destSize, done, full)
                  else Ended(destSize, io.dest, io.room, full)
                       || (full.complete && io.pointer == |source| && St() == full.state
                           && Wrote([], destSize, io.dest, io.room, UnitBytes(full.units), true))
        decreases |source| - io.pointer, running
      {
        if io.pointer < |source| {
          running, done := HandleByte(source, destSize, done, full);
        } else {
          AtTheEnd(St(), From(io.pointer), done, full);
          running := false;
        }
      }
      if running {
        RoomUsedUp(destSize, io.dest, done, Expanded(St(), From(io.pointer)), full);
      }
      consumed, written := io.pointer, |io.dest|;
    }
  }

  /** The output ended early: with the whole expansion although not all was understood, or where the room ended. */
  ghost predicate Ended(destSize: nat, dest: seq<Byte>, room: nat, full: Outcome) {
    || (!full.complete && Wrote([], destSize, dest, room, UnitBytes(full.units), true))
    || (Wrote([], destSize, dest, room, UnitBytes(full.units), false))
  }

  lemma {:induction false} CutOff(destSize: nat, dest: seq<Byte>, room: nat, units: seq<Unit>, full: Outcome, tail: Outcome)
    requires Wrote([], destSize, dest, room, UnitBytes(units), false) && full == Before(units, tail)
    ensures Ended(destSize, dest, room, full)
  {
    UnitBytesConcat(units, tail.units);
    WroteLess([], destSize, dest, room, UnitBytes(units), UnitBytes(tail.units));
  }

  lemma {:induction false} StoppedEarly(destSize: nat, dest: seq<Byte>, room: nat, full: Outcome)
    requires Wrote([], destSize, dest, room, UnitBytes(full.units), true) && !full.complete
    ensures Ended(destSize, dest, room, full)
  {
  }

  lemma {:induction false} AtTheEnd(st: State, rest: seq<Byte>, done: seq<Unit>, full: Outcome)
    requires |st.windows| == 8 && rest == [] && full == Before(done, Expanded(st, rest))
    ensures full.units == done && full.complete && full.state == st
  {
    assert done + [] == done;
  }

  lemma {:induction false} RoomUsedUp(destSize: nat, dest: seq<Byte>, done: seq<Unit>, tail: Outcome, full: Outcome)
    requires Wrote([], destSize, dest, 0, UnitBytes(done), true) && full == Before(done, tail)
    ensures dest == UnitBytes(full.units)[..Least(|UnitBytes(full.units)|, destSize)] && |UnitBytes(full.units)| >= destSize
  {
    UnitBytesConcat(done, tail.units);
    WroteFull([], destSize, dest, UnitBytes(done), UnitBytes(tail.units));
  }
}
