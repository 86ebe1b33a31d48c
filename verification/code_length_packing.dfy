/** Run-length packing of code lengths (section 3.2.7 of RFC 1951). */
module CodeLengthPacking {
  import opened LzCodes
  import opened SymbolFrequency
  import opened Bits

  const MAX_CODE_SIZES := 320

  /** A code length by itself, a repetition of the last one, or a run of zeros. */
  datatype Token = Size(size: nat) | RepeatLast(count: nat) | Zeros(count: nat)

  ghost predicate TokenOk(t: Token) {
    match t
    case Size(size) => size < 16
    case RepeatLast(count) => 3 <= count <= 6
    case Zeros(count) => 3 <= count <= 138
  }

  function TokenSym(t: Token): (c: nat) {
    match t
    case Size(size) => size
    case RepeatLast(_) => 16
    case Zeros(count) => if count <= 10 then 17 else 18
  }

  /** What follows the symbol, and in how many bits. */
  function Extra(t: Token): int {
    match t
    case Size(_) => 0
    case RepeatLast(count) => count - 3
    case Zeros(count) => if count <= 10 then count - 3 else count - 11
  }

  function ExtraBits(c: nat): nat {
    if c == 16 then 2 else if c == 17 then 3 else if c == 18 then 7 else 0
  }

  ghost predicate TokensOk(ts: seq<Token>) {
    forall i | 0 <= i < |ts| :: TokenOk(ts[i])
  }

  ghost function TokenBytes(t: Token): seq<int> {
    if t.Size? then [t.size] else [TokenSym(t), Extra(t)]
  }

  ghost function Bytes(ts: seq<Token>): seq<int> {
    if ts == [] then [] else Bytes(ts[..|ts| - 1]) + TokenBytes(ts[|ts| - 1])
  }

  ghost function Copies(v: nat, count: nat): (r: seq<nat>)
    ensures |r| == count
  {
    seq(count, _ => v)
  }

  ghost function Last(out: seq<nat>): nat {
    if out == [] then 0 else out[|out| - 1]
  }

  ghost function ExpandToken(out: seq<nat>, t: Token): seq<nat> {
    match t
    case Size(size) => out + [size]
    case RepeatLast(count) => out + Copies(Last(out), count)
    case Zeros(count) => out + Copies(0, count)
  }

  /** The code lengths the tokens stand for. */
  ghost function ExpandTokens(ts: seq<Token>): seq<nat> {
    if ts == [] then [] else ExpandToken(ExpandTokens(ts[..|ts| - 1]), ts[|ts| - 1])
  }

  /** The first token does not refer to a length before it. */
  ghost predicate WellStarted(ts: seq<Token>) {
    ts == [] || !ts[0].RepeatLast?
  }

  ghost function SymOccurs(ts: seq<Token>, c: nat): (n: nat)
    ensures n <= |ts|
  {
    if ts == [] then 0 else SymOccurs(ts[..|ts| - 1], c) + (if TokenSym(ts[|ts| - 1]) == c then 1 else 0)
  }

  lemma {:induction false} OneMoreToken(ts: seq<Token>, t: Token)
    ensures Bytes(ts + [t]) == Bytes(ts) + TokenBytes(t)
    ensures ExpandTokens(ts + [t]) == ExpandToken(ExpandTokens(ts), t)
    ensures forall c: nat :: SymOccurs(ts + [t], c) == SymOccurs(ts, c) + (if TokenSym(t) == c then 1 else 0)
  {
    assert (ts + [t])[..|ts|] == ts;
  }

  /** The packed form is never longer than what it stands for. */
  lemma {:induction false} PackedNoLonger(ts: seq<Token>)
    requires TokensOk(ts)
    ensures |ts| <= |Bytes(ts)| <= |ExpandTokens(ts)|
  {
    if ts != [] {
      PackedNoLonger(ts[..|ts| - 1]);
    }
  }

  // ---------------------------------------------------------------- the tokens of a run

  ghost function Times(t: Token, n: nat): (ts: seq<Token>)
    ensures |ts| == n
  {
    seq(n, _ => t)
  }

  function Whole(n: nat, d: nat): nat
    requires d > 0
  {
    n / d
  }

  function Rest(n: nat, d: nat): (r: nat)
    requires d > 0
    ensures r < d
  {
    n % d
  }

  /** What is left of a run of zeros: one or two zeros stand by themselves. */
  ghost function ShortZeros(n: nat): seq<Token> {
    if n < 3 then Times(Size(0), n) else [Zeros(n)]
  }

  /** What is left of a repetition: one or two lengths stand by themselves. */
  ghost function ShortRepeat(v: nat, n: nat): seq<Token> {
    if n < 3 then Times(Size(v), n) else [RepeatLast(n)]
  }

  /** `n` zeros, 138 at a time; `n` times another length: the length, and then six at a time. */
  ghost function RunTokens(v: nat, n: nat): seq<Token>
    requires n > 0
  {
    if v == 0 then Times(Zeros(138), Whole(n, 138)) + ShortZeros(Rest(n, 138))
    else [Size(v)] + Times(RepeatLast(6), Whole(n - 1, 6)) + ShortRepeat(v, Rest(n - 1, 6))
  }

  /** How many lengths at the end are equal. */
  ghost function LastRun(sizes: seq<nat>): (n: nat)
    requires sizes != []
    ensures 1 <= n <= |sizes| && forall i | |sizes| - n <= i < |sizes| :: sizes[i] == Last(sizes)
    ensures n < |sizes| ==> sizes[|sizes| - n - 1] != Last(sizes)
  {
    var front := sizes[..|sizes| - 1];
    if front == [] || Last(front) != Last(sizes) then 1 else LastRun(front) + 1
  }

  /** Run by run. */
  ghost function TokensOf(sizes: seq<nat>): seq<Token> {
    if sizes == [] then []
    else
      var n := LastRun(sizes);
      TokensOf(sizes[..|sizes| - n]) + RunTokens(Last(sizes), n)
  }

  /** The tokens so far are those of the lengths so far, but for what is pending of the last run. */
  ghost predicate OnRun(ts: seq<Token>, done: seq<nat>, repeats: nat, zeros: nat) {
    if done == [] then ts == [] && repeats == zeros == 0
    else
      var v, n := Last(done), LastRun(done);
      && ts + (if v == 0 then ShortZeros(zeros) else ShortRepeat(v, repeats)) == TokensOf(done)
      && zeros == (if v == 0 then Rest(n, 138) else 0) && repeats == (if v == 0 then 0 else Rest(n - 1, 6))
  }

  /** Another length begins a run. */
  lemma {:induction false} NewRun(done: seq<nat>, size: nat)
    requires done == [] || size != Last(done)
    ensures LastRun(done + [size]) == 1 && TokensOf(done + [size]) == TokensOf(done) + RunTokens(size, 1)
  {
    hide RunTokens;
    assert (done + [size])[..|done|] == done;
  }

  /** The same length goes on with it. */
  lemma {:induction false} SameRun(done: seq<nat>)
    requires done != []
    ensures var v, n := Last(done), LastRun(done);
            && LastRun(done + [v]) == n + 1 && n <= |done|
            && TokensOf(done) == TokensOf(done[..|done| - n]) + RunTokens(v, n)
            && TokensOf(done + [v]) == TokensOf(done[..|done| - n]) + RunTokens(v, n + 1)
  {
    hide RunTokens;
    var v, n := Last(done), LastRun(done);
    assert (done + [v])[..|done|] == done;
    assert (done + [v])[..|done| - n] == done[..|done| - n];
  }

  lemma TimesOne(t: Token, n: nat)
    ensures Times(t, n) + [t] == Times(t, n + 1)
  {
  }

  /** A zero after zeros: 138 of them are complete. */
  lemma {:induction false} ZeroAgain(ts: seq<Token>, done: seq<nat>, repeats: nat, zeros: nat)
    requires done != [] && Last(done) == 0 && OnRun(ts, done, repeats, zeros)
    ensures repeats == 0 && zeros < 138
    ensures OnRun(if zeros + 1 == 138 then ts + [Zeros(138)] else ts, done + [0], 0, if zeros + 1 == 138 then 0 else zeros + 1)
  {
    hide TokensOf, LastRun, ShortZeros, RunTokens, Times, ShortRepeat, Whole, Rest;
    SameRun(done);
    var n := LastRun(done);
    var full, before := Times(Zeros(138), Whole(n, 138)), TokensOf(done[..|done| - n]);
    ZeroRun(n);
    NextZero(n);
    NoShort(0);
    Cancel(ts, before, full, ShortZeros(zeros));
    if zeros + 1 == 138 {
      Completed(ts, before, full, Zeros(138));
    } else {
      Partial(ts, before, full, ShortZeros(zeros + 1));
    }
    LastOfMore(done, 0);
  }

  lemma {:induction false} NextZero(n: nat)
    requires n > 0
    ensures Rest(n, 138) < 138
    ensures Rest(n, 138) + 1 == 138 ==>
              RunTokens(0, n + 1) == Times(Zeros(138), Whole(n, 138)) + [Zeros(138)] + [] && Rest(n + 1, 138) == 0
    ensures Rest(n, 138) + 1 < 138 ==>
              RunTokens(0, n + 1) == Times(Zeros(138), Whole(n, 138)) + ShortZeros(Rest(n, 138) + 1) && Rest(n + 1, 138) == Rest(n, 138) + 1
  {
    hide ShortZeros, RunTokens, Times, Whole, Rest;
    ZeroRun(n + 1);
    Division(n, 138);
    TimesOne(Zeros(138), Whole(n, 138));
    NoShort(0);
  }

  lemma {:induction false} NextRepeat(v: nat, n: nat)
    requires n > 0 && v > 0
    ensures Rest(n - 1, 6) < 6
    ensures Rest(n - 1, 6) + 1 == 6 ==>
              RunTokens(v, n + 1) == [Size(v)] + Times(RepeatLast(6), Whole(n - 1, 6)) + [RepeatLast(6)] + [] && Rest(n, 6) == 0
    ensures Rest(n - 1, 6) + 1 < 6 ==>
              && RunTokens(v, n + 1) == [Size(v)] + Times(RepeatLast(6), Whole(n - 1, 6)) + ShortRepeat(v, Rest(n - 1, 6) + 1)
              && Rest(n, 6) == Rest(n - 1, 6) + 1
  {
    hide ShortRepeat, RunTokens, Times, Whole, Rest;
    SizeRun(v, n + 1);
    Division(n - 1, 6);
    TimesOne(RepeatLast(6), Whole(n - 1, 6));
    NoShort(v);
    assert [Size(v)] + Times(RepeatLast(6), Whole(n - 1, 6)) + [RepeatLast(6)] == [Size(v)] + (Times(RepeatLast(6), Whole(n - 1, 6)) + [RepeatLast(6)]);
  }

  lemma Completed(ts: seq<Token>, before: seq<Token>, full: seq<Token>, t: Token)
    requires ts == before + full
    ensures ts + [t] + [] == before + (full + [t] + [])
  {
  }

  lemma Partial(ts: seq<Token>, before: seq<Token>, full: seq<Token>, short: seq<Token>)
    requires ts == before + full
    ensures ts + short == before + (full + short)
  {
  }

  lemma Cancel(ts: seq<Token>, before: seq<Token>, full: seq<Token>, short: seq<Token>)
    requires ts + short == before + (full + short)
    ensures ts == before + full
  {
    assert ts == (ts + short)[..|ts|];
    assert before + full == (before + (full + short))[..|before + full|];
  }

  lemma Division(n: nat, d: nat)
    requires d > 1
    ensures Rest(n, d) + 1 == d ==> Whole(n + 1, d) == Whole(n, d) + 1 && Rest(n + 1, d) == 0
    ensures Rest(n, d) + 1 < d ==> Whole(n + 1, d) == Whole(n, d) && Rest(n + 1, d) == Rest(n, d) + 1
  {
    var q, r := n / d, n % d;
    assert n == q * d + r;
    assert (q + 1) * d == q * d + d;
    if r + 1 == d {
      DivModUnique(n + 1, d, q + 1, 0);
    } else {
      DivModUnique(n + 1, d, q, r + 1);
    }
  }

  lemma ZeroRun(n: nat)
    requires n > 0
    ensures RunTokens(0, n) == Times(Zeros(138), Whole(n, 138)) + ShortZeros(Rest(n, 138))
  {
  }

  lemma SizeRun(v: nat, n: nat)
    requires n > 0 && v > 0
    ensures RunTokens(v, n) == [Size(v)] + Times(RepeatLast(6), Whole(n - 1, 6)) + ShortRepeat(v, Rest(n - 1, 6))
  {
  }

  lemma NoShort(v: nat)
    ensures ShortZeros(0) == [] && ShortRepeat(v, 0) == []
  {
  }

  lemma LastOfMore(done: seq<nat>, v: nat)
    ensures done + [v] != [] && Last(done + [v]) == v
  {
  }

  /** A zero after another length ends its run. */
  lemma {:induction false} FirstZero(ts: seq<Token>, done: seq<nat>, repeats: nat, zeros: nat)
    requires (done == [] || Last(done) != 0) && OnRun(ts, done, repeats, zeros)
    ensures zeros == 0
    ensures OnRun(ts + (if done == [] then [] else ShortRepeat(Last(done), repeats)), done + [0], 0, 1)
  {
    NewRun(done, 0);
    assert Times(Zeros(138), 0) + ShortZeros(1) == ShortZeros(1);
  }

  /** Another length ends the run before and stands by itself. */
  lemma {:induction false} NewSize(ts: seq<Token>, done: seq<nat>, repeats: nat, zeros: nat, size: nat)
    requires size > 0 && (done == [] || Last(done) != size) && OnRun(ts, done, repeats, zeros)
    ensures var flushed := ts + (if done == [] then [] else if Last(done) == 0 then ShortZeros(zeros) else ShortRepeat(Last(done), repeats));
            OnRun(flushed + [Size(size)], done + [size], 0, 0)
  {
    NewRun(done, size);
    assert [Size(size)] + Times(RepeatLast(6), 0) + ShortRepeat(size, 0) == [Size(size)];
    assert ShortRepeat(size, 0) == [];
  }

  /** A length again: six repetitions are complete. */
  lemma {:induction false} SizeAgain(ts: seq<Token>, done: seq<nat>, repeats: nat, zeros: nat)
    requires done != [] && Last(done) > 0 && OnRun(ts, done, repeats, zeros)
    ensures zeros == 0 && repeats < 6
    ensures OnRun(if repeats + 1 == 6 then ts + [RepeatLast(6)] else ts, done + [Last(done)], if repeats + 1 == 6 then 0 else repeats + 1, 0)
  {
    hide TokensOf, LastRun, ShortZeros, RunTokens, Times, ShortRepeat, Whole, Rest;
    SameRun(done);
    var v, n := Last(done), LastRun(done);
    var full, before := [Size(v)] + Times(RepeatLast(6), Whole(n - 1, 6)), TokensOf(done[..|done| - n]);
    SizeRun(v, n);
    NextRepeat(v, n);
    NoShort(v);
    Cancel(ts, before, full, ShortRepeat(v, repeats));
    if repeats + 1 == 6 {
      Completed(ts, before, full, RepeatLast(6));
    } else {
      Partial(ts, before, full, ShortRepeat(v, repeats + 1));
    }
    LastOfMore(done, v);
  }

  // ---------------------------------------------------------------- packing

  /** The packed bytes and the symbol counts are those of the tokens. */
  ghost predicate Packing(packed: seq<int>, counts: seq<Word16>, ts: seq<Token>) {
    && TokensOk(ts) && WellStarted(ts) && packed == Bytes(ts)
    && |counts| == 19 && forall c: nat | c < 19 :: counts[c] == SymOccurs(ts, c)
  }

  lemma {:induction false} PackToken(packed: seq<int>, counts: seq<Word16>, ts: seq<Token>, t: Token, count: Word16)
    requires Packing(packed, counts, ts) && TokenOk(t) && (ts == [] ==> !t.RepeatLast?)
    requires count - 1 == counts[TokenSym(t)]
    ensures Packing(packed + TokenBytes(t), counts[TokenSym(t) := count], ts + [t])
  {
    OneMoreToken(ts, t);
  }

  lemma {:induction false} CopiesOne(v: nat, count: nat)
    ensures Copies(v, count) + [v] == Copies(v, count + 1)
    ensures [v] + Copies(v, count) == Copies(v, count + 1)
  {
  }

  /** What is pending behind the tokens: repetitions of the last length, or zeros. */
  ghost predicate Pending(ts: seq<Token>, done: seq<nat>, prev: nat, repeats: nat, zeros: nat) {
    && (repeats == 0 || zeros == 0) && repeats < 6 && zeros < 138
    && done == ExpandTokens(ts) + (if zeros > 0 then Copies(0, zeros) else Copies(prev, repeats))
    && (done == [] ==> prev == 0xFF)
    && (done != [] ==> prev == Last(done) && prev < 16)
    && (repeats > 0 ==> ExpandTokens(ts) != [] && Last(ExpandTokens(ts)) == prev)
  }

  /** Packs one code length by itself. */
  method PutSize(packed: array<Byte>, num: nat, counts: array<Word16>, size: nat, ghost ts: seq<Token>)
    requires num < packed.Length && counts.Length == 19 && size < 16 && Packing(packed[..num], counts[..], ts)
    requires counts[size] < 0xFFFF
    modifies packed, counts
    ensures Packing(packed[..num + 1], counts[..], ts + [Size(size)])
  {
    ghost var p, c := packed[..num], counts[..];
    PackToken(p, c, ts, Size(size), counts[size] + 1);
    hide Packing;
    counts[size] := counts[size] + 1;
    packed[num] := size;
    assert packed[..num + 1] == p + TokenBytes(Size(size));
    ghost var count: Word16 := c[size] + 1;
    assert counts[..] == c[size := count];
  }

  /** Packs a run as a symbol and its count. */
  method PutRun(packed: array<Byte>, num: nat, counts: array<Word16>, code: nat, extra: Byte, ghost ts: seq<Token>, ghost t: Token)
    requires num + 1 < packed.Length && counts.Length == 19 && Packing(packed[..num], counts[..], ts)
    requires TokenOk(t) && !t.Size? && code == TokenSym(t) && extra == Extra(t) && (ts == [] ==> !t.RepeatLast?)
    requires counts[code] < 0xFFFF
    modifies packed, counts
    ensures Packing(packed[..num + 2], counts[..], ts + [t])
  {
    ghost var p, c := packed[..num], counts[..];
    PackToken(p, c, ts, t, counts[code] + 1);
    hide Packing;
    counts[code] := counts[code] + 1;
    packed[num] := code;
    packed[num + 1] := extra;
    assert packed[..num + 2] == p + TokenBytes(t);
    ghost var count: Word16 := c[code] + 1;
    assert counts[..] == c[code := count];
  }

  lemma {:induction false} CountsSmall(packed: seq<int>, counts: seq<Word16>, ts: seq<Token>)
    requires Packing(packed, counts, ts)
    ensures forall c | 0 <= c < 19 :: counts[c] <= |packed|
    ensures |packed| <= |ExpandTokens(ts)|
  {
    PackedNoLonger(ts);
  }

  lemma {:induction false} ExpandRun(ts: seq<Token>, t: Token)
    requires !t.Size?
    ensures ExpandTokens(ts + [t]) == ExpandTokens(ts) + Copies(if t.Zeros? then 0 else Last(ExpandTokens(ts)), t.count)
  {
    OneMoreToken(ts, t);
  }

  lemma ShortOf(v: nat, n: nat)
    ensures ShortZeros(n) == if n < 3 then Times(Size(0), n) else [Zeros(n)]
    ensures ShortRepeat(v, n) == if n < 3 then Times(Size(v), n) else [RepeatLast(n)]
  {
  }

  lemma NoneOf(t: Token, ts: seq<Token>)
    ensures ts + Times(t, 0) == ts
  {
  }

  lemma OneMore(ts: seq<Token>, t: Token, n: nat)
    ensures ts + Times(t, n) + [t] == ts + Times(t, n + 1)
  {
    TimesOne(t, n);
  }

  lemma ExpandSize(ts: seq<Token>, v: nat)
    ensures ExpandTokens(ts + [Size(v)]) == ExpandTokens(ts) + [v]
  {
    OneMoreToken(ts, Size(v));
  }

  /** Packs `count` pending repetitions of `prev`. */
  method FlushRepeats(packed: array<Byte>, num: nat, counts: array<Word16>, prev: nat, count: nat, ghost ts: seq<Token>)
    returns (num': nat, ghost ts': seq<Token>)
    requires num + count <= packed.Length <= MAX_CODE_SIZES && counts.Length == 19 && count <= 6
    requires Packing(packed[..num], counts[..], ts)
    requires count > 0 ==> ExpandTokens(ts) != [] && Last(ExpandTokens(ts)) == prev < 16
    modifies packed, counts
    ensures num' <= num + count && Packing(packed[..num'], counts[..], ts')
    ensures ts' == ts + ShortRepeat(prev, count)
    ensures ExpandTokens(ts') == ExpandTokens(ts) + Copies(prev, count)
  {
    hide Packing, ShortRepeat, Times, Bytes, ExpandToken;
    num', ts' := num, ts;
    ShortOf(prev, count);
    NoneOf(Size(prev), ts);
    if count < 3 {
      var left := count;
      assert Copies(prev, 0) == [];
      while left > 0
        invariant 0 <= left <= count && num' == num + count - left
        invariant Packing(packed[..num'], counts[..], ts')
        invariant ts' == ts + Times(Size(prev), count - left)
        invariant ExpandTokens(ts') == ExpandTokens(ts) + Copies(prev, count - left)
      {
        CountsSmall(packed[..num'], counts[..], ts');
        PutSize(packed, num', counts, prev, ts');
        ExpandSize(ts', prev);
        CopiesOne(prev, count - left);
        OneMore(ts, Size(prev), count - left);
        num', ts', left := num' + 1, ts' + [Size(prev)], left - 1;
      }
    } else {
      CountsSmall(packed[..num], counts[..], ts);
      PutRun(packed, num, counts, 16, count - 3, ts, RepeatLast(count));
      ExpandRun(ts, RepeatLast(count));
      num', ts' := num + 2, ts + [RepeatLast(count)];
    }
  }

  /** Packs `count` pending zeros. */
  method FlushZeros(packed: array<Byte>, num: nat, counts: array<Word16>, count: nat, ghost ts: seq<Token>)
    returns (num': nat, ghost ts': seq<Token>)
    requires num + count <= packed.Length <= MAX_CODE_SIZES && counts.Length == 19 && count <= 138
    requires Packing(packed[..num], counts[..], ts)
    modifies packed, counts
    ensures num' <= num + count && Packing(packed[..num'], counts[..], ts')
    ensures ts' == ts + ShortZeros(count)
    ensures ExpandTokens(ts') == ExpandTokens(ts) + Copies(0, count)
  {
    hide Packing, ShortZeros, Times, Bytes, ExpandToken;
    num', ts' := num, ts;
    ShortOf(0, count);
    NoneOf(Size(0), ts);
    CountsSmall(packed[..num], counts[..], ts);
    if count < 3 {
      var left := count;
      assert Copies(0, 0) == [];
      while left > 0
        invariant 0 <= left <= count && num' == num + count - left
        invariant Packing(packed[..num'], counts[..], ts')
        invariant ts' == ts + Times(Size(0), count - left)
        invariant ExpandTokens(ts') == ExpandTokens(ts) + Copies(0, count - left)
      {
        CountsSmall(packed[..num'], counts[..], ts');
        PutSize(packed, num', counts, 0, ts');
        ExpandSize(ts', 0);
        CopiesOne(0, count - left);
        OneMore(ts, Size(0), count - left);
        num', ts', left := num' + 1, ts' + [Size(0)], left - 1;
      }
    } else {
      ExpandRun(ts, Zeros(count));
      if count <= 10 {
        PutRun(packed, num, counts, 17, count - 3, ts, Zeros(count));
      } else {
        PutRun(packed, num, counts, 18, count - 11, ts, Zeros(count));
      }
      num', ts' := num + 2, ts + [Zeros(count)];
    }
  }

  /** Everything before is what the tokens stand for, then the pending lengths. */
  lemma {:induction false} PendingSum(ts: seq<Token>, done: seq<nat>, prev: nat, repeats: nat, zeros: nat)
    requires Pending(ts, done, prev, repeats, zeros)
    ensures done == ExpandTokens(ts) + Copies(prev, repeats) + Copies(0, zeros)
    ensures done == ExpandTokens(ts) + (if repeats > 0 then Copies(prev, repeats) else Copies(0, zeros))
    ensures repeats < 6 && zeros < 138
    ensures |ExpandTokens(ts)| + repeats + zeros == |done|
    ensures repeats > 0 ==> ExpandTokens(ts) != [] && Last(ExpandTokens(ts)) == prev < 16
  {
    hide ExpandTokens;
    assert Copies(prev, 0) == [] && Copies(0, 0) == [];
  }

  lemma {:induction false} NothingPending(ts: seq<Token>, done: seq<nat>)
    requires ExpandTokens(ts) == done != [] && Last(done) < 16
    ensures Pending(ts, done, Last(done), 0, 0)
  {
    assert Copies(Last(done), 0) == [];
  }

  lemma {:induction false} ZeroPending(ts: seq<Token>, ts': seq<Token>, done: seq<nat>, prev: nat, repeats: nat, zeros: nat)
    requires Pending(ts, done, prev, repeats, zeros) && ExpandTokens(ts') == ExpandTokens(ts) + Copies(prev, repeats)
    ensures done + [0] == ExpandTokens(ts') + Copies(0, zeros + 1)
    ensures zeros + 1 < 138 ==> Pending(ts', done + [0], 0, 0, zeros + 1)
    ensures Last(done + [0]) == 0
  {
    PendingSum(ts, done, prev, repeats, zeros);
    CopiesOne(0, zeros);
    hide ExpandTokens;
  }

  lemma {:induction false} LastOne(done: seq<nat>, v: nat)
    ensures done + [v] != [] && Last(done + [v]) == v
  {
  }

  lemma {:induction false} AfterZeros(ts: seq<Token>, ts': seq<Token>, done: seq<nat>, prev: nat, repeats: nat, zeros: nat)
    requires Pending(ts, done, prev, repeats, zeros) && ExpandTokens(ts') == ExpandTokens(ts) + Copies(0, zeros)
    ensures done == ExpandTokens(ts') + Copies(prev, repeats) && repeats < 6
    ensures repeats > 0 || (0 < prev < 16) ==> ExpandTokens(ts') != [] && Last(ExpandTokens(ts')) == prev < 16
  {
    hide ExpandTokens;
    PendingSum(ts, done, prev, repeats, zeros);
    assert Copies(prev, 0) == [];
  }

  lemma {:induction false} RepeatPending(ts: seq<Token>, done: seq<nat>, prev: nat, repeats: nat)
    requires done == ExpandTokens(ts) + Copies(prev, repeats) && repeats < 6
    requires ExpandTokens(ts) != [] && Last(ExpandTokens(ts)) == prev < 16
    ensures done + [prev] == ExpandTokens(ts) + Copies(prev, repeats + 1)
    ensures repeats + 1 < 6 ==> Pending(ts, done + [prev], prev, repeats + 1, 0)
  {
    hide ExpandTokens;
    CopiesOne(prev, repeats);
  }

  /** What packing a zero makes of the tokens. */
  lemma {:induction false} ZeroOnRun(ts: seq<Token>, done: seq<nat>, prev: nat, repeats: nat, zeros: nat)
    requires Pending(ts, done, prev, repeats, zeros)
    ensures OnRun(ts, done, repeats, zeros) && (done != [] ==> prev == Last(done)) ==>
              OnRun(ts + ShortRepeat(prev, repeats) + (if zeros + 1 == 138 then ShortZeros(138) else []),
                    done + [0], 0, if zeros + 1 == 138 then 0 else zeros + 1)
  {
    hide ExpandTokens, TokensOf, LastRun, RunTokens;
    if OnRun(ts, done, repeats, zeros) && (done != [] ==> prev == Last(done)) {
      NoShort(prev);
      if done != [] && prev == 0 {
        ZeroAgain(ts, done, repeats, zeros);
        assert ts + ShortRepeat(prev, repeats) == ts;
      } else {
        FirstZero(ts, done, repeats, zeros);
        assert done == [] ==> ShortRepeat(prev, repeats) == [];
      }
      assert ts + ShortRepeat(prev, repeats) + [] == ts + ShortRepeat(prev, repeats);
    }
  }

  /** What packing another length makes of them. */
  lemma {:induction false} SizeOnRun(ts: seq<Token>, done: seq<nat>, prev: nat, repeats: nat, zeros: nat, size: nat)
    requires Pending(ts, done, prev, repeats, zeros) && 0 < size < 16
    ensures OnRun(ts, done, repeats, zeros) && (done != [] ==> prev == Last(done)) && size != prev ==>
              OnRun(ts + ShortZeros(zeros) + ShortRepeat(prev, repeats) + [Size(size)], done + [size], 0, 0)
    ensures OnRun(ts, done, repeats, zeros) && (done != [] ==> prev == Last(done)) && size == prev ==>
              OnRun(ts + ShortZeros(zeros) + (if repeats + 1 == 6 then ShortRepeat(prev, 6) else []),
                    done + [size], if repeats + 1 == 6 then 0 else repeats + 1, 0)
  {
    hide ExpandTokens, TokensOf, LastRun, RunTokens;
    if OnRun(ts, done, repeats, zeros) && (done != [] ==> prev == Last(done)) {
      NoShort(prev);
      if size != prev {
        NewSize(ts, done, repeats, zeros, size);
        assert ts + ShortZeros(zeros) + ShortRepeat(prev, repeats) ==
               ts + (if done == [] then [] else if Last(done) == 0 then ShortZeros(zeros) else ShortRepeat(Last(done), repeats));
      } else {
        SizeAgain(ts, done, repeats, zeros);
        assert ts + ShortZeros(zeros) == ts && ts + [] == ts;
      }
    }
  }

  /** The next code length is zero. */
  method PackZero(packed: array<Byte>, num: nat, counts: array<Word16>, prev: nat, repeats: nat, zeros: nat,
                  ghost ts: seq<Token>, ghost done: seq<nat>)
    returns (num': nat, zeros': nat, ghost ts': seq<Token>)
    requires |done| < packed.Length <= MAX_CODE_SIZES && counts.Length == 19 && num <= |ExpandTokens(ts)|
    requires Pending(ts, done, prev, repeats, zeros) && num <= packed.Length && Packing(packed[..num], counts[..], ts)
    modifies packed, counts
    ensures num' <= |ExpandTokens(ts')| <= |done| + 1 && Packing(packed[..num'], counts[..], ts')
    ensures Pending(ts', done + [0], 0, 0, zeros')
    ensures OnRun(ts, done, repeats, zeros) && (done != [] ==> prev == Last(done)) ==> OnRun(ts', done + [0], 0, zeros')
  {
    hide Packing, ExpandTokens, Bytes, Copies, OnRun, ShortZeros, ShortRepeat, Last;
    PendingSum(ts, done, prev, repeats, zeros);
    ZeroOnRun(ts, done, prev, repeats, zeros);
    num', ts' := FlushRepeats(packed, num, counts, prev, repeats, ts);
    ZeroPending(ts, ts', done, prev, repeats, zeros);
    assert ts' + [] == ts';
    zeros' := zeros + 1;
    if zeros' == 138 {
      num', ts' := FlushZeros(packed, num', counts, zeros', ts');
      NothingPending(ts', done + [0]);
      zeros' := 0;
    }
  }

  /** The next code length is not zero. */
  method PackSize(packed: array<Byte>, num: nat, counts: array<Word16>, size: nat, prev: nat, repeats: nat, zeros: nat,
                  ghost ts: seq<Token>, ghost done: seq<nat>)
    returns (num': nat, repeats': nat, ghost ts': seq<Token>)
    requires |done| < packed.Length <= MAX_CODE_SIZES && counts.Length == 19 && num <= |ExpandTokens(ts)| && 0 < size < 16
    requires Pending(ts, done, prev, repeats, zeros) && num <= packed.Length && Packing(packed[..num], counts[..], ts)
    modifies packed, counts
    ensures num' <= |ExpandTokens(ts')| <= |done| + 1 && Packing(packed[..num'], counts[..], ts')
    ensures Pending(ts', done + [size], size, repeats', 0)
    ensures OnRun(ts, done, repeats, zeros) && (done != [] ==> prev == Last(done)) ==> OnRun(ts', done + [size], repeats', 0)
  {
    hide Packing, Pending, ExpandTokens, Bytes, Copies, Last, OnRun, ShortZeros, ShortRepeat;
    PendingSum(ts, done, prev, repeats, zeros);
    SizeOnRun(ts, done, prev, repeats, zeros, size);
    num', ts' := FlushZeros(packed, num, counts, zeros, ts);
    AfterZeros(ts, ts', done, prev, repeats, zeros);
    if size != prev {
      num', ts' := FlushRepeats(packed, num', counts, prev, repeats, ts');
      repeats' := 0;
      CountsSmall(packed[..num'], counts[..], ts');
      PutSize(packed, num', counts, size, ts');
      OneMoreToken(ts', Size(size));
      num', ts' := num' + 1, ts' + [Size(size)];
      LastOne(done, size);
      NothingPending(ts', done + [size]);
    } else {
      repeats' := repeats + 1;
      RepeatPending(ts', done, size, repeats);
      assert ts' + [] == ts';
      if repeats' == 6 {
        num', ts' := FlushRepeats(packed, num', counts, prev, repeats', ts');
        LastOne(done, size);
        NothingPending(ts', done + [size]);
        repeats' := 0;
      }
    }
  }

  /** Packs all code lengths. The tokens stand for exactly the lengths, the first is no repetition, and the
      packed form is no longer than the lengths. */
  method PackCodeSizes(sizes: seq<nat>, packed: array<Byte>, counts: array<Word16>)
    returns (num: nat, ghost ts: seq<Token>)
    requires |sizes| <= packed.Length <= MAX_CODE_SIZES && counts.Length == 19
    requires forall i | 0 <= i < |sizes| :: sizes[i] < 16
    modifies packed, counts
    ensures num <= |sizes| && packed[..num] == Bytes(ts) && ExpandTokens(ts) == sizes
    ensures ts == TokensOf(sizes)
    ensures TokensOk(ts) && WellStarted(ts)
    ensures forall c: nat | c < 19 :: counts[c] == SymOccurs(ts, c)
  {
    hide OnRun, TokensOf, ShortZeros, ShortRepeat, Packing, Pending, ExpandTokens, Bytes, Copies, Last, SymOccurs, TokensOk, WellStarted;
    forall i | 0 <= i < counts.Length {
      counts[i] := 0;
    }
    var prev: nat, repeats: nat, zeros: nat, i := 0xFF, 0, 0, 0;
    num, ts := 0, [];
    NoTokens(counts[..]);
    NothingOnRun();
    assert packed[..0] == [] && sizes[..0] == [];
    while i < |sizes|
      invariant 0 <= i <= |sizes| && num <= |ExpandTokens(ts)| <= i
      invariant Packing(packed[..num], counts[..], ts)
      invariant Pending(ts, sizes[..i], prev, repeats, zeros)
      invariant OnRun(ts, sizes[..i], repeats, zeros) && (i > 0 ==> prev == Last(sizes[..i]))
    {
      var size := sizes[i];
      if size == 0 {
        num, zeros, ts := PackZero(packed, num, counts, prev, repeats, zeros, ts, sizes[..i]);
        repeats := 0;
      } else {
        num, repeats, ts := PackSize(packed, num, counts, size, prev, repeats, zeros, ts, sizes[..i]);
        zeros := 0;
      }
      prev := size;
      i := i + 1;
      assert sizes[..i] == sizes[..i - 1] + [size];
      LastOfMore(sizes[..i - 1], size);
    }
    assert sizes[..i] == sizes;
    PendingSum(ts, sizes, prev, repeats, zeros);
    RunEnds(ts, sizes, prev, repeats, zeros);
    if repeats > 0 {
      num, ts := FlushRepeats(packed, num, counts, prev, repeats, ts);
    } else {
      num, ts := FlushZeros(packed, num, counts, zeros, ts);
    }
    PackingMeans(packed[..num], counts[..], ts);
  }

  lemma NothingOnRun()
    ensures OnRun([], [], 0, 0)
  {
  }

  /** What is pending at the end completes the tokens. */
  lemma {:induction false} RunEnds(ts: seq<Token>, sizes: seq<nat>, prev: nat, repeats: nat, zeros: nat)
    requires OnRun(ts, sizes, repeats, zeros) && (sizes != [] ==> prev == Last(sizes))
    ensures TokensOf(sizes) == ts + if repeats > 0 then ShortRepeat(prev, repeats) else ShortZeros(zeros)
  {
    NoShort(prev);
    hide LastRun, RunTokens, ShortRepeat, ShortZeros;
    assert ts + [] == ts;
  }

  lemma {:induction false} NoTokens(counts: seq<Word16>)
    requires |counts| == 19 && forall c | 0 <= c < 19 :: counts[c] == 0
    ensures Packing([], counts, []) && Pending([], [], 0xFF, 0, 0) && ExpandTokens([]) == []
  {
  }

  lemma {:induction false} PackingMeans(packed: seq<int>, counts: seq<Word16>, ts: seq<Token>)
    requires Packing(packed, counts, ts)
    ensures TokensOk(ts) && WellStarted(ts) && packed == Bytes(ts) && |packed| <= |ExpandTokens(ts)|
    ensures |counts| == 19 && forall c: nat | c < 19 :: counts[c] == SymOccurs(ts, c)
  {
    PackedNoLonger(ts);
  }
}
