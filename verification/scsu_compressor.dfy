/** The compressor: units are collected four at a time and written in runs of one treatment. */
module ScsuCompressor {
  import opened ByteValues
  import opened Scsu
  import opened ScsuStream

  /** A unit and how it is to be treated. */
  datatype Action = Action(code: Unit, treatment: int)

  function ActionFor(code: Unit): Action {
    Action(code, Treatment(code))
  }

  /** The actions for a sequence of units. */
  ghost predicate ActionsFor(actions: seq<Action>, codes: seq<Unit>) {
    |actions| == |codes| && forall i | 0 <= i < |codes| :: actions[i] == ActionFor(codes[i])
  }

  class Compressor {
    const io: UnicodeStream
    const dynamicWindows: array<nat>
    var unicodeMode: bool
    var activeWindowBase: nat
    var dynamicWindowIndex: nat
    var actions: seq<Action>

    constructor ()
      ensures fresh(io) && fresh(dynamicWindows) && Valid() && actions == []
      ensures Now() == Comp(State(false, 0x80, DEFAULT_WINDOWS), 0) && CompOk(Now())
    {
      io := new UnicodeStream();
      dynamicWindows := new nat[8](i requires 0 <= i < 8 => DEFAULT_WINDOWS[i]);
      unicodeMode, activeWindowBase, dynamicWindowIndex, actions := false, 0x80, 0, [];
      new;
      assert dynamicWindows[..] == DEFAULT_WINDOWS;
    }

    ghost predicate Valid()
      reads this
    {
      dynamicWindows.Length == 8 && dynamicWindowIndex < 8
    }

    ghost function Now(): Comp
      reads `unicodeMode, `activeWindowBase, `dynamicWindowIndex, dynamicWindows
    {
      Comp(State(unicodeMode, activeWindowBase, dynamicWindows[..]), dynamicWindowIndex)
    }

    method WriteUChar(c: Unit) returns (ok: bool)
      modifies io`dest, io`room
      ensures Wrote(old(io.dest), old(io.room), io.dest, io.room, UnicodeBytes(c), ok)
    {
      if 0xE000 <= c <= 0xF2FF {
        ok := io.WriteByte8(UQU);
        if !ok {
          WroteLess(old(io.dest), old(io.room), io.dest, io.room, [UQU], BigEndian(c));
          return;
        }
        label L:
        ok := io.WriteByteBe(c);
        WroteBoth(old(io.dest), old(io.room), old@L(io.dest), old@L(io.room), io.dest, io.room, [UQU], BigEndian(c), ok);
      } else {
        assert [] + BigEndian(c) == BigEndian(c);
        ok := io.WriteByteBe(c);
      }
    }

    /** Writes two bytes. */
    method WritePair(a: Byte, b: Byte) returns (ok: bool)
      modifies io`dest, io`room
      ensures Wrote(old(io.dest), old(io.room), io.dest, io.room, [a, b], ok)
    {
      ok := io.WriteByte8(a);
      if ok {
        ok := io.WriteByte8(b);
      }
    }

    method WriteSChar(c: Action) returns (ok: bool)
      requires Valid() && c == ActionFor(c.code)
      modifies io`dest, io`room
      ensures Wrote(old(io.dest), old(io.room), io.dest, io.room, SingleBytes(Now().st, c.code), ok)
    {
      hide Treatment, Wrote;
      if c.treatment == PLAIN_ASCII {
        ok := io.WriteByte8(c.code % 256);
        return;
      }
      if FIRST_STATIC <= c.treatment <= FIRST_STATIC + 7 {
        ok := WritePair(SQ0 + (c.treatment - FIRST_STATIC), c.code % 256);
        return;
      }
      Treatments(c.code);
      if activeWindowBase <= c.code < activeWindowBase + 128 {
        ok := io.WriteByte8(c.code - activeWindowBase + 0x80);
        return;
      }
      var i := 0;
      while i < 8
        invariant 0 <= i <= 8 && FirstWindow(dynamicWindows[..], c.code, 0) == FirstWindow(dynamicWindows[..], c.code, i)
        invariant io.dest == old(io.dest) && io.room == old(io.room)
      {
        if dynamicWindows[i] <= c.code < dynamicWindows[i] + 128 {
          ok := WritePair(SQ0 + i, c.code - dynamicWindows[i] + 0x80);
          return;
        }
        i := i + 1;
      }
      ok := WriteQuoted(c.code);
    }

    method WriteQuoted(c: Unit) returns (ok: bool)
      modifies io`dest, io`room
      ensures Wrote(old(io.dest), old(io.room), io.dest, io.room, [SQU] + BigEndian(c), ok)
    {
      ok := io.WriteByte8(SQU);
      if !ok {
        WroteLess(old(io.dest), old(io.room), io.dest, io.room, [SQU], BigEndian(c));
        return;
      }
      label L:
      ok := io.WriteByteBe(c);
      WroteBoth(old(io.dest), old(io.room), old@L(io.dest), old@L(io.room), io.dest, io.room, [SQU], BigEndian(c), ok);
    }

    method WriteChar(c: Action) returns (ok: bool)
      requires Valid() && c == ActionFor(c.code)
      modifies io`dest, io`room
      ensures Wrote(old(io.dest), old(io.room), io.dest, io.room, CharBytes(Now().st, c.code), ok)
    {
      if unicodeMode {
        ok := WriteUChar(c.code);
      } else {
        ok := WriteSChar(c);
      }
    }

    /** Prepares for a run of the given treatment. */
    method WriteTreatmentSelection(treatment: int) returns (ok: bool)
      requires Valid()
      modifies io`dest, io`room, `unicodeMode, `activeWindowBase, `dynamicWindowIndex, dynamicWindows
      ensures Valid() && Wrote(old(io.dest), old(io.room), io.dest, io.room, Select(old(Now()), treatment).bytes, ok)
      ensures ok ==> Now() == Select(old(Now()), treatment).next
    {
      hide DynamicWindowBase, Wrote;
      if treatment == PLAIN_UNICODE {
        ok := io.WriteByte8(SCU);
        if ok {
          unicodeMode := true;
        }
        return;
      }
      if treatment == PLAIN_ASCII {
        if unicodeMode {
          ok := io.WriteByte8(UC0 + dynamicWindowIndex);
          if ok {
            unicodeMode := false;
          }
          return;
        }
        WroteNothing(io.dest, io.room);
        return true;
      }
      if 0 <= treatment < 256 {
        ok := SelectDynamic(treatment);
        return;
      }
      WroteNothing(io.dest, io.room);
      return true;
    }

    /** Selects the window of the treatment, or defines it as window 4. */
    method SelectDynamic(treatment: nat) returns (ok: bool)
      requires Valid() && treatment < 256
      modifies io`dest, io`room, `unicodeMode, `activeWindowBase, `dynamicWindowIndex, dynamicWindows
      ensures Valid() && Wrote(old(io.dest), old(io.room), io.dest, io.room, Select(old(Now()), treatment).bytes, ok)
      ensures ok ==> Now() == Select(old(Now()), treatment).next
    {
      hide DynamicWindowBase, Wrote;
      var base := DynamicWindowBase(treatment);
      var i := 0;
      while i < 8
        invariant 0 <= i <= 8 && FirstBase(dynamicWindows[..], base, 0) == FirstBase(dynamicWindows[..], base, i)
        invariant io.dest == old(io.dest) && io.room == old(io.room) && Now() == old(Now())
      {
        if base == dynamicWindows[i] {
          WroteNothing(io.dest, io.room);
          ok := true;
          if unicodeMode {
            ok := io.WriteByte8(UC0 + i);
          } else if i != dynamicWindowIndex {
            ok := io.WriteByte8(SC0 + i);
          }
          if ok {
            unicodeMode, dynamicWindowIndex, activeWindowBase := false, i, base;
          }
          return;
        }
        i := i + 1;
      }
      ok := WritePair(if unicodeMode then UD0 + 4 else SD0 + 4, treatment);
      if ok {
        unicodeMode, dynamicWindowIndex := false, 4;
        dynamicWindows[4] := base;
        activeWindowBase := base;
        assert dynamicWindows[..] == old(dynamicWindows[..])[4 := base];
      }
    }

    /** Writes the characters of the first `n` actions. */
    method WriteChars(n: nat, ghost codes: seq<Unit>) returns (ok: bool)
      requires Valid() && ActionsFor(actions, codes) && n <= |codes|
      modifies io`dest, io`room
      ensures Wrote(old(io.dest), old(io.room), io.dest, io.room, Chars(Now().st, codes[..n]), ok)
    {
      hide Wrote, CharBytes, Treatment;
      ghost var st := Now().st;
      var i := 0;
      assert codes[..0] == [];
      WroteNothing(io.dest, io.room);
      while i < n
        invariant 0 <= i <= n && Wrote(old(io.dest), old(io.room), io.dest, io.room, Chars(st, codes[..i]), true)
      {
        label L:
        CharsOne(st, codes, i);
        ok := WriteChar(actions[i]);
        WroteBoth(old(io.dest), old(io.room), old@L(io.dest), old@L(io.room), io.dest, io.room,
                  Chars(st, codes[..i]), CharBytes(st, codes[i]), ok);
        if !ok {
          CharsSplit(st, codes, i + 1, n);
          WroteLess(old(io.dest), old(io.room), io.dest, io.room, Chars(st, codes[..i + 1]), Chars(st, codes[i + 1..n]));
          return;
        }
        i := i + 1;
      }
      return true;
    }

    /** Writes what single-byte mode can write without a run, and forgets those actions. */
    method WriteLeading(ghost codes: seq<Unit>) returns (ok: bool, ghost k: nat)
      requires Valid() && ActionsFor(actions, codes) && !unicodeMode
      modifies io`dest, io`room, `actions
      ensures k <= Leading(Now().st, codes) <= |codes|
      ensures Wrote(old(io.dest), old(io.room), io.dest, io.room, Chars(Now().st, codes[..k]), ok)
      ensures ok ==> k == Leading(Now().st, codes) && ActionsFor(actions, codes[k..])
    {
      hide Wrote, CharBytes, Treatment;
      ghost var st := Now().st;
      k := 0;
      assert codes[..0] == [] && codes[0..] == codes;
      WroteNothing(io.dest, io.room);
      while actions != []
        invariant k <= |codes| && ActionsFor(actions, codes[k..])
        invariant Leading(st, codes) == k + Leading(st, codes[k..])
        invariant Wrote(old(io.dest), old(io.room), io.dest, io.room, Chars(st, codes[..k]), true)
        decreases |actions|
      {
        var act := actions[0];
        assert act == ActionFor(codes[k..][0]) && codes[k..][1..] == codes[k + 1..];
        if act.treatment == PLAIN_ASCII || (activeWindowBase <= act.code < activeWindowBase + 128) {
          label L:
          CharsOne(st, codes, k);
          ok := WriteChar(act);
          WroteBoth(old(io.dest), old(io.room), old@L(io.dest), old@L(io.room), io.dest, io.room,
                    Chars(st, codes[..k]), CharBytes(st, codes[k]), ok);
          k := k + 1;
          if !ok {
            return;
          }
          actions := actions[1..];
        } else {
          break;
        }
      }
      return true, k;
    }

    /** How many actions from the first on have its treatment. */
    method SequenceSize(ghost codes: seq<Unit>) returns (n: nat)
      requires ActionsFor(actions, codes) && actions != []
      ensures n == RunLength(codes)
    {
      hide Treatment;
      n := 1;
      while n < |actions| && actions[n].treatment == actions[0].treatment
        invariant 1 <= n <= |actions|
        invariant forall i | 0 <= i < n :: Treatment(codes[i]) == Treatment(codes[0])
      {
        n := n + 1;
      }
      RunLengthIs(codes, n);
    }

    /** Writes one run and forgets its actions. */
    method WriteFirstRun(ghost codes: seq<Unit>) returns (ok: bool)
      requires Valid() && ActionsFor(actions, codes) && actions != []
      modifies io`dest, io`room, `actions, `unicodeMode, `activeWindowBase, `dynamicWindowIndex, dynamicWindows
      ensures Valid()
      ensures var n := RunLength(codes);
              var w := WriteOneRun(old(Now()), codes[..n]);
              && Wrote(old(io.dest), old(io.room), io.dest, io.room, w.bytes, ok)
              && (ok ==> Now() == w.next && ActionsFor(actions, codes[n..]))
    {
      hide Wrote, Chars, Treatment, Select;
      var n := SequenceSize(codes);
      ghost var w := WriteOneRun(Now(), codes[..n]);
      ghost var tag: seq<Byte> := if n > 1 then Select(Now(), Treatment(codes[0])).bytes else [];
      WroteNothing(io.dest, io.room);
      if n > 1 {
        ok := WriteTreatmentSelection(actions[0].treatment);
        if !ok {
          WroteLess(old(io.dest), old(io.room), io.dest, io.room, tag, Chars(w.next.st, codes[..n]));
          return;
        }
      }
      label L:
      ok := WriteChars(n, codes);
      WroteBoth(old(io.dest), old(io.room), old@L(io.dest), old@L(io.room), io.dest, io.room, tag, Chars(w.next.st, codes[..n]), ok);
      if ok {
        actions := actions[n..];
      }
    }

    /** Writes all collected actions, run by run. */
    method WriteRuns(ghost codes: seq<Unit>) returns (ok: bool)
      requires Valid() && ActionsFor(actions, codes)
      modifies io`dest, io`room, `actions, `unicodeMode, `activeWindowBase, `dynamicWindowIndex, dynamicWindows
      ensures Valid() && Wrote(old(io.dest), old(io.room), io.dest, io.room, Runs(old(Now()), codes).bytes, ok)
      ensures ok ==> actions == [] && Now() == Runs(old(Now()), codes).next
    {
      hide Wrote, WriteOneRun, Treatment;
      ghost var left, done, all := codes, [], Runs(Now(), codes);
      WroteNothing(io.dest, io.room);
      assert [] + all.bytes == all.bytes;
      while actions != []
        invariant Valid() && ActionsFor(actions, left)
        invariant done + Runs(Now(), left).bytes == all.bytes && Runs(Now(), left).next == all.next
        invariant Wrote(old(io.dest), old(io.room), io.dest, io.room, done, true)
        decreases |actions|
      {
        ghost var n := RunLength(left);
        ghost var first := WriteOneRun(Now(), left[..n]);
        ghost var rest := Runs(first.next, left[n..]);
        label L:
        ok := WriteFirstRun(left);
        WroteBoth(old(io.dest), old(io.room), old@L(io.dest), old@L(io.room), io.dest, io.room, done, first.bytes, ok);
        assert done + (first.bytes + rest.bytes) == done + first.bytes + rest.bytes;
        if !ok {
          WroteLess(old(io.dest), old(io.room), io.dest, io.room, done + first.bytes, rest.bytes);
          return;
        }
        left, done := left[n..], done + first.bytes;
      }
      assert done + [] == done;
      return true;
    }

    /** Writes what was collected; stops where the room ends. */
    method WriteRun(ghost codes: seq<Unit>) returns (ghost ok: bool)
      requires Valid() && ActionsFor(actions, codes)
      modifies io`dest, io`room, `actions, `unicodeMode, `activeWindowBase, `dynamicWindowIndex, dynamicWindows
      ensures Valid() && Wrote(old(io.dest), old(io.room), io.dest, io.room, Batch(old(Now()), codes).bytes, ok)
      ensures ok ==> actions == [] && Now() == Batch(old(Now()), codes).next
    {
      hide Wrote, Runs, Chars, Treatment;
      ghost var c := Now();
      if !unicodeMode {
        var fits;
        ghost var k;
        fits, k := WriteLeading(codes);
        ghost var n := Leading(c.st, codes);
        if !fits {
          CharsSplit(c.st, codes, k, n);
          WroteLess(old(io.dest), old(io.room), io.dest, io.room, Chars(c.st, codes[..k]),
                    Chars(c.st, codes[k..n]) + Runs(c, codes[n..]).bytes);
          assert Chars(c.st, codes[..k]) + (Chars(c.st, codes[k..n]) + Runs(c, codes[n..]).bytes) == Batch(c, codes).bytes;
          return false;
        }
        label L:
        fits := WriteRuns(codes[k..]);
        WroteBoth(old(io.dest), old(io.room), old@L(io.dest), old@L(io.room), io.dest, io.room,
                  Chars(c.st, codes[..k]), Runs(c, codes[k..]).bytes, fits);
        ok := fits;
      } else {
        var fits := WriteRuns(codes);
        ok := fits;
      }
    }

    /** Whole batches are written, `pending` is collected, `unread` still to come, and all of it fits so far. */
    ghost predicate Compressing(c0: Comp, destSize: nat, done: seq<Unit>, pending: seq<Unit>, unread: seq<Unit>, text: seq<Unit>)
      reads this, dynamicWindows, io
    {
      && Valid() && |c0.st.windows| == 8 && c0.index < 8
      && text == done + (pending + unread) && |done| % FLUSH_SIZE == 0 && ActionsFor(actions, pending)
      && Wrote([], destSize, io.dest, io.room, Compressed(c0, done).bytes, true) && Now() == Compressed(c0, done).next
    }

    /** Writes a batch of collected units, which is the last unless it is a full one. */
    method WriteBatch(ghost c0: Comp, ghost destSize: nat, ghost done: seq<Unit>, ghost pending: seq<Unit>, ghost unread: seq<Unit>,
                      ghost text: seq<Unit>) returns (ghost ok: bool)
      requires Compressing(c0, destSize, done, pending, unread, text)
      requires |pending| == FLUSH_SIZE || (0 < |pending| < FLUSH_SIZE && unread == [])
      modifies io`dest, io`room, `actions, `unicodeMode, `activeWindowBase, `dynamicWindowIndex, dynamicWindows
      ensures Valid()
      ensures ok && |pending| == FLUSH_SIZE ==> Compressing(c0, destSize, done + pending, [], unread, text)
      ensures ok && |pending| < FLUSH_SIZE ==> Completed(c0, destSize, text)
      ensures !ok ==> Wrote([], destSize, io.dest, io.room, Compressed(c0, text).bytes, false)
    {
      hide Wrote, Batch, Compressed, Treatment;
      ghost var d, r, c := io.dest, io.room, Now();
      CompressedSplit(c0, done, pending + unread);
      CompressedSplit(c0, done, pending);
      OneBatch(c, pending, unread);
      ok := WriteRun(pending);
      ghost var before, now, later := Compressed(c0, done).bytes, Batch(c, pending), Compressed(Batch(c, pending).next, unread);
      WroteBoth([], destSize, d, r, io.dest, io.room, before, now.bytes, ok);
      assert before + (now.bytes + later.bytes) == before + now.bytes + later.bytes;
      if !ok {
        WroteLess([], destSize, io.dest, io.room, before + now.bytes, later.bytes);
      } else if |pending| == FLUSH_SIZE {
        assert done + (pending + unread) == (done + pending) + ([] + unread);
      } else {
        assert pending + unread == pending;
      }
    }

    /** Everything is written. */
    ghost predicate Completed(c0: Comp, destSize: nat, text: seq<Unit>)
      reads this, dynamicWindows, io
    {
      && Valid() && |c0.st.windows| == 8 && c0.index < 8 && actions == []
      && Wrote([], destSize, io.dest, io.room, Compressed(c0, text).bytes, true) && Now() == Compressed(c0, text).next
    }

    /** Compresses the units of the source, as far as the destination has room. */
    method Compress(source: seq<Byte>, destSize: nat) returns (written: nat)
      requires Valid() && actions == []
      modifies this, dynamicWindows, io
      ensures Valid()
      ensures var full := Compressed(Comp(State(false, old(activeWindowBase), old(dynamicWindows[..])), old(dynamicWindowIndex)),
                                     SourceUnits(source));
              && written == |io.dest| && io.dest == full.bytes[..Least(|full.bytes|, destSize)]
              && (|full.bytes| <= destSize ==> actions == [] && Now() == full.next)
    {
      hide Batch, Compressed, Treatment, SourceUnits;
      io.source, io.pointer, io.dest, io.room := source, 0, [], destSize;
      unicodeMode := false;
      ghost var c0, text := Now(), SourceUnits(source);
      ghost var done: seq<Unit>, pending: seq<Unit>, unread: seq<Unit>, failed := [], [], text, false;
      NothingCompressed(c0);
      assert source[0..] == source && [] + ([] + text) == text;
      while io.room > 0
        invariant io.source == source && io.pointer <= |source|
        invariant !failed ==> Compressing(c0, destSize, done, pending, unread, text) && |pending| < FLUSH_SIZE
        invariant !failed ==> unread == SourceUnits(source[io.pointer..])
        invariant failed ==> Valid() && io.room == 0 && Wrote([], destSize, io.dest, io.room, Compressed(c0, text).bytes, false)
        decreases |source| - io.pointer
      {
        FirstUnit(source, io.pointer);
        var read, uc := io.ReadByte16();
        if !read {
          break;
        }
        actions := actions + [ActionFor(uc)];
        assert pending + unread == (pending + [uc]) + unread[1..];
        pending, unread := pending + [uc], unread[1..];
        if |actions| == FLUSH_SIZE {
          ghost var ok := WriteBatch(c0, destSize, done, pending, unread, text);
          if ok {
            done, pending := done + pending, [];
          } else {
            failed := true;
            WroteLess([], destSize, io.dest, io.room, Compressed(c0, text).bytes, []);
          }
        }
      }
      ghost var finished := false;
      while |actions| > 0 && io.room > 0
        invariant if finished then Completed(c0, destSize, text)
                  else if failed then Valid() && io.room == 0 && Wrote([], destSize, io.dest, io.room, Compressed(c0, text).bytes, false)
                  else Compressing(c0, destSize, done, pending, unread, text) && |pending| < FLUSH_SIZE
        invariant !failed && !finished && io.room > 0 ==> unread == []
        decreases !finished && !failed
      {
        ghost var ok := WriteBatch(c0, destSize, done, pending, unread, text);
        if ok {
          finished := true;
        } else {
          failed := true;
          WroteLess([], destSize, io.dest, io.room, Compressed(c0, text).bytes, []);
        }
      }
      if !failed && !finished {
        Settle(c0, destSize, done, pending, unread, text);
      }
      written := |io.dest|;
    }

    /** Nothing is left, or there is no room for what is left. */
    lemma {:induction false} Settle(c0: Comp, destSize: nat, done: seq<Unit>, pending: seq<Unit>, unread: seq<Unit>, text: seq<Unit>)
      requires Compressing(c0, destSize, done, pending, unread, text) && (actions == [] || io.room == 0)
      requires io.room > 0 ==> unread == []
      ensures io.dest == Compressed(c0, text).bytes[..Least(|Compressed(c0, text).bytes|, destSize)]
      ensures |Compressed(c0, text).bytes| <= destSize ==> actions == [] && Now() == Compressed(c0, text).next
    {
      hide Compressed, Batch;
      CompressedSplit(c0, done, pending + unread);
      var more := Compressed(Compressed(c0, done).next, pending + unread).bytes;
      if pending + unread == [] {
        assert text == done;
      } else {
        SomethingCompressed(Compressed(c0, done).next, pending + unread);
        WroteFull([], destSize, io.dest, Compressed(c0, done).bytes, more);
      }
    }
  }

  /** The units of a source, lower byte first; an odd last byte is ignored. */
  function SourceUnits(source: seq<Byte>): seq<Unit> {
    if |source| < 2 then [] else [source[0] as int + 256 * source[1] as int] + SourceUnits(source[2..])
  }

  lemma {:induction false} FirstUnit(source: seq<Byte>, at: nat)
    requires at <= |source|
    ensures at + 1 < |source| ==>
              && SourceUnits(source[at..]) != [] && SourceUnits(source[at..])[0] == source[at] as int + 256 * source[at + 1] as int
              && SourceUnits(source[at..])[1..] == SourceUnits(source[at + 2..])
    ensures at + 1 >= |source| ==> SourceUnits(source[at..]) == []
  {
    if at + 1 < |source| {
      assert source[at..][2..] == source[at + 2..];
    }
  }

  lemma {:induction false} NothingCompressed(c: Comp)
    requires |c.st.windows| == 8 && c.index < 8
    ensures Compressed(c, []) == Written([], c)
  {
  }

  /** Whole batches are independent of what follows. */
  lemma {:induction false} CompressedSplit(c: Comp, a: seq<Unit>, b: seq<Unit>)
    requires |c.st.windows| == 8 && c.index < 8 && |a| % FLUSH_SIZE == 0
    ensures var first := Compressed(c, a);
            var second := Compressed(first.next, b);
            Compressed(c, a + b) == Written(first.bytes + second.bytes, second.next)
    decreases |a|
  {
    hide Batch;
    if a == [] {
      assert a + b == b;
      assert [] + Compressed(c, b).bytes == Compressed(c, b).bytes;
    } else {
      var first := Batch(c, a[..FLUSH_SIZE]);
      assert (a + b)[..FLUSH_SIZE] == a[..FLUSH_SIZE] && (a + b)[FLUSH_SIZE..] == a[FLUSH_SIZE..] + b;
      CompressedSplit(first.next, a[FLUSH_SIZE..], b);
      var rest := Compressed(first.next, a[FLUSH_SIZE..]);
      var last := Compressed(rest.next, b);
      assert first.bytes + (rest.bytes + last.bytes) == first.bytes + rest.bytes + last.bytes;
    }
  }

  /** A full batch, or the last one. */
  lemma {:induction false} OneBatch(c: Comp, batch: seq<Unit>, rest: seq<Unit>)
    requires |c.st.windows| == 8 && c.index < 8
    requires |batch| == FLUSH_SIZE || (0 < |batch| < FLUSH_SIZE && rest == [])
    ensures var first := Batch(c, batch);
            var later := Compressed(first.next, rest);
            Compressed(c, batch + rest) == Written(first.bytes + later.bytes, later.next)
    ensures Compressed(c, batch) == Batch(c, batch)
  {
    hide Batch;
    var first := Batch(c, batch);
    assert first.bytes + [] == first.bytes;
    assert batch[..|batch|] == batch && batch[|batch|..] == [];
    if |batch| == FLUSH_SIZE {
      assert (batch + rest)[..FLUSH_SIZE] == batch && (batch + rest)[FLUSH_SIZE..] == rest;
    } else {
      assert batch + rest == batch;
    }
  }

  /** Every unit takes at least one byte. */
  lemma {:induction false} SomethingCompressed(c: Comp, codes: seq<Unit>)
    requires |c.st.windows| == 8 && c.index < 8 && codes != []
    ensures Compressed(c, codes).bytes != []
  {
    hide Treatment, Select, CharBytes;
    var n: nat := if |codes| < FLUSH_SIZE then |codes| else FLUSH_SIZE;
    var batch := codes[..n];
    var k := Leading(c.st, batch);
    if c.st.unicode {
      SomeRun(c, batch);
    } else if k > 0 {
      SomeChars(c.st, batch[..k]);
    } else {
      SomeRun(c, batch[k..]);
    }
  }

  lemma {:induction false} SomeRun(c: Comp, codes: seq<Unit>)
    requires |c.st.windows| == 8 && c.index < 8 && codes != []
    ensures Runs(c, codes).bytes != []
  {
    hide Treatment, Select, CharBytes;
    var run := codes[..RunLength(codes)];
    SomeChars((if |run| > 1 then Select(c, Treatment(run[0])).next else c).st, run);
  }

  lemma {:induction false} SomeChars(st: State, codes: seq<Unit>)
    requires |st.windows| == 8 && codes != []
    ensures Chars(st, codes) != []
  {
    assert CharBytes(st, codes[0]) != [];
  }

  lemma {:induction false} CharsOne(st: State, codes: seq<Unit>, i: nat)
    requires |st.windows| == 8 && i < |codes|
    ensures Chars(st, codes[..i + 1]) == Chars(st, codes[..i]) + CharBytes(st, codes[i])
  {
    CharsSplit(st, codes, i, i + 1);
    assert codes[i..i + 1] == [codes[i]];
  }

  lemma {:induction false} CharsSplit(st: State, codes: seq<Unit>, i: nat, n: nat)
    requires |st.windows| == 8 && i <= n <= |codes|
    ensures Chars(st, codes[..n]) == Chars(st, codes[..i]) + Chars(st, codes[i..n])
    decreases n
  {
    hide CharBytes;
    if i == 0 {
      assert codes[0..n] == codes[..n];
    } else {
      CharsSplit(st, codes[1..], i - 1, n - 1);
      assert codes[..n][1..] == codes[1..][..n - 1] && codes[..i][1..] == codes[1..][..i - 1];
      assert codes[1..][i - 1..n - 1] == codes[i..n];
    }
  }

  lemma {:induction false} RunLengthIs(codes: seq<Unit>, n: nat)
    requires 1 <= n <= |codes| && forall i | 0 <= i < n :: Treatment(codes[i]) == Treatment(codes[0])
    requires n < |codes| ==> Treatment(codes[n]) != Treatment(codes[0])
    ensures RunLength(codes) == n
  {
    hide Treatment;
  }
}
