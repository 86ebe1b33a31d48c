/** Bijective base-2 run lengths: digit 0 stands for one, digit 1 for two, most significant first. */
module BijectiveRuns {
  /** The digits of a run length; none for zero. */
  function RunSymbols(len: nat): (s: seq<nat>)
    ensures forall i | 0 <= i < |s| :: s[i] < 2
  {
    if len == 0 then [] else RunSymbols((len - 1) / 2) + [1 - len % 2]
  }

  /** The run length that digits stand for. */
  function RunValue(s: seq<nat>): nat {
    if s == [] then 0 else 2 * RunValue(s[..|s| - 1]) + s[|s| - 1] + 1
  }

  lemma {:induction false} ValueOfSymbols(len: nat)
    ensures RunValue(RunSymbols(len)) == len
  {
    if len > 0 {
      ValueOfSymbols((len - 1) / 2);
      var s := RunSymbols(len);
      assert s[..|s| - 1] == RunSymbols((len - 1) / 2);
    }
  }

  /** Every digit sequence is the one of its value: the numeration is a bijection. */
  lemma {:induction false} SymbolsOfValue(s: seq<nat>)
    requires forall i | 0 <= i < |s| :: s[i] < 2
    ensures RunSymbols(RunValue(s)) == s
  {
    hide RunSymbols;
    if s != [] {
      SymbolsOfValue(s[..|s| - 1]);
      OneMoreDigit(RunValue(s[..|s| - 1]), s[|s| - 1]);
      assert s == s[..|s| - 1] + [s[|s| - 1]];
    } else {
      NoDigits();
    }
  }

  lemma NoDigits()
    ensures RunSymbols(0) == []
  {
  }

  lemma OneMoreDigit(v: nat, digit: nat)
    requires digit < 2
    ensures RunSymbols(2 * v + digit + 1) == RunSymbols(v) + [digit]
  {
    var len := 2 * v + digit + 1;
    assert (len - 1) / 2 == v && 1 - len % 2 == digit;
  }

  /** Fewer digits stand for less: a reader that counts along cannot stop early. */
  lemma {:induction false} PrefixValue(s: seq<nat>, k: nat)
    requires k <= |s|
    ensures RunValue(s[..k]) <= RunValue(s) && (k < |s| ==> RunValue(s[..k]) < RunValue(s))
    decreases |s|
  {
    if k < |s| {
      PrefixValue(s[..|s| - 1], k);
      assert s[..|s| - 1][..k] == s[..k];
    } else {
      assert s[..k] == s;
    }
  }

  lemma {:induction false} ValueOne(s: seq<nat>, k: nat)
    requires k < |s|
    ensures RunValue(s[..k + 1]) == 2 * RunValue(s[..k]) + s[k] + 1
  {
    assert s[..k + 1][..k] == s[..k];
  }
}

/** The code-length coder of the deflate variant in Symbian images: move-to-front with run lengths. */
module MoveToFront {
  import opened BijectiveRuns

  const METACODES: nat := 28

  /** The list and the last code together hold every code once; position 0 of the list is free. */
  ghost predicate Order(list: seq<nat>, last: nat) {
    && |list| == METACODES && last < METACODES
    && (forall i | 1 <= i < METACODES :: list[i] < METACODES && list[i] != last)
    && (forall i, j | 1 <= i < j < METACODES :: list[i] != list[j])
    && (forall v: nat | v < METACODES && v != last :: Listed(list, v))
  }

  ghost predicate Listed(list: seq<nat>, v: nat) {
    exists i :: 1 <= i < |list| && list[i] == v
  }

  /** Position `j` moves to the front, and the last code behind it. */
  function Moved(list: seq<nat>, last: nat, j: nat): (r: seq<nat>)
    requires 1 <= j < |list|
    ensures |r| == |list|
  {
    [list[0], last] + list[1..j] + list[j + 1..]
  }

  lemma {:induction false} MovedAt(list: seq<nat>, last: nat, j: nat)
    requires 1 <= j < |list|
    ensures forall i | 0 <= i < |list| ::
              Moved(list, last, j)[i] == MovedEntry(list, last, j, i)
  {
    var r := Moved(list, last, j);
    forall i | 0 <= i < |list|
      ensures r[i] == MovedEntry(list, last, j, i)
    {
      if i <= 1 {
        assert r[i] == [list[0], last][i];
      } else if i <= j {
        assert r[i] == list[1..j][i - 2];
      } else {
        assert r[i] == list[j + 1..][i - j - 1];
      }
    }
  }

  function MovedEntry(list: seq<nat>, last: nat, j: nat, i: nat): nat
    requires 1 <= j < |list| && i < |list|
  {
    if i == 0 then list[0] else if i == 1 then last else if i <= j then list[i - 1] else list[i]
  }

  lemma {:induction false} MovedKeepsOrder(list: seq<nat>, last: nat, j: nat)
    requires Order(list, last) && 1 <= j < METACODES
    ensures Order(Moved(list, last, j), list[j])
  {
    hide Moved;
    MovedAt(list, last, j);
    var r := Moved(list, last, j);
    assert forall i | 0 <= i < METACODES :: r[i] == MovedEntry(list, last, j, i);
    forall v: nat | v < METACODES && v != list[j]
      ensures Listed(r, v)
    {
      if v == last {
        assert r[1] == v;
      } else {
        assert Listed(list, v);
        var i :| 1 <= i < METACODES && list[i] == v;
        assert r[if i < j then i + 1 else i] == v;
      }
    }
  }

  lemma {:induction false} Identity(list: seq<nat>)
    requires |list| == METACODES && forall i | 0 <= i < METACODES :: list[i] == i
    ensures Order(list, 0)
  {
    forall v: nat | v < METACODES && v != 0
      ensures Listed(list, v)
    {
      assert list[v] == v;
    }
  }

  // ---------------------------------------------------------------- what is written

  /** Where the code stands in the list. */
  function Position(list: seq<nat>, c: nat, from: nat): (j: nat)
    requires 1 <= from <= |list|
    ensures from <= j <= |list| && (j < |list| ==> list[j] == c)
    ensures forall i | from <= i < j :: list[i] != c
    decreases |list| - from
  {
    if from == |list| || list[from] == c then from else Position(list, c, from + 1)
  }

  lemma {:induction false} PositionListed(list: seq<nat>, last: nat, c: nat)
    requires Order(list, last) && c < METACODES && c != last
    ensures 1 <= Position(list, c, 1) < METACODES == |list| && list[Position(list, c, 1)] == c
  {
    assert Listed(list, c);
  }

  ghost predicate Codes(xs: seq<nat>) {
    forall i | 0 <= i < |xs| :: xs[i] < METACODES
  }

  /** The metacodes for `xs` after `rl` pending repetitions of `last`. */
  ghost function Externalized(list: seq<nat>, last: nat, rl: nat, xs: seq<nat>): (s: seq<nat>)
    requires Order(list, last) && Codes(xs)
    ensures forall i | 0 <= i < |s| :: s[i] <= METACODES
    decreases |xs|
  {
    if xs == [] then RunSymbols(rl)
    else if xs[0] == last then Externalized(list, last, rl + 1, xs[1..])
    else
      PositionListed(list, last, xs[0]);
      var j := Position(list, xs[0], 1);
      MovedKeepsOrder(list, last, j);
      RunSymbols(rl) + [j + 1] + Externalized(Moved(list, last, j), xs[0], 0, xs[1..])
  }

  /** How many copies of `last` come first. */
  ghost function Repeats(last: nat, xs: seq<nat>): (n: nat)
    ensures n <= |xs| && (forall i | 0 <= i < n :: xs[i] == last) && (n < |xs| ==> xs[n] != last)
  {
    if xs != [] && xs[0] == last then 1 + Repeats(last, xs[1..]) else 0
  }

  /** What follows the run that `xs` begins with. */
  ghost function AfterRun(list: seq<nat>, last: nat, xs: seq<nat>): (s: seq<nat>)
    requires Order(list, last) && Codes(xs)
  {
    var n := Repeats(last, xs);
    if n == |xs| then []
    else
      PositionListed(list, last, xs[n]);
      var j := Position(list, xs[n], 1);
      MovedKeepsOrder(list, last, j);
      [j + 1] + Externalized(Moved(list, last, j), xs[n], 0, xs[n + 1..])
  }

  lemma {:induction false} AfterRunStep(list: seq<nat>, last: nat, xs: seq<nat>)
    requires Order(list, last) && Codes(xs) && xs != [] && xs[0] == last
    ensures Repeats(last, xs) == 1 + Repeats(last, xs[1..]) && AfterRun(list, last, xs) == AfterRun(list, last, xs[1..])
  {
    hide Order, Position, Moved, Externalized;
    var n, tail := Repeats(last, xs[1..]), xs[1..];
    assert Repeats(last, xs) == 1 + n;
    hide Repeats;
    if n < |tail| {
      assert tail[n] == xs[n + 1] && tail[n + 1..] == xs[n + 2..];
    }
  }

  lemma {:induction false} AfterNoRun(list: seq<nat>, last: nat, rl: nat, xs: seq<nat>)
    requires Order(list, last) && Codes(xs) && xs != [] && xs[0] != last
    ensures Externalized(list, last, rl, xs) == RunSymbols(rl) + AfterRun(list, last, xs)
  {
    hide Order, Position, Moved, RunSymbols;
    PositionListed(list, last, xs[0]);
    var j := Position(list, xs[0], 1);
    MovedKeepsOrder(list, last, j);
    var later := Externalized(Moved(list, last, j), xs[0], 0, xs[1..]);
    assert RunSymbols(rl) + [j + 1] + later == RunSymbols(rl) + ([j + 1] + later);
  }

  /** What is written begins with the pending run. */
  lemma {:induction false} RunFirst(list: seq<nat>, last: nat, rl: nat, xs: seq<nat>)
    requires Order(list, last) && Codes(xs)
    ensures Externalized(list, last, rl, xs) == RunSymbols(rl + Repeats(last, xs)) + AfterRun(list, last, xs)
    decreases |xs|
  {
    hide RunSymbols, Order, Position, Moved;
    if xs == [] {
      assert RunSymbols(rl) + [] == RunSymbols(rl);
    } else if xs[0] == last {
      hide AfterRun;
      RunFirst(list, last, rl + 1, xs[1..]);
      AfterRunStep(list, last, xs);
    } else {
      hide AfterRun, Externalized;
      AfterNoRun(list, last, rl, xs);
    }
  }

  /** Writes the digits of a run length. */
  method EncodeRunLength(output: seq<nat>, len: nat) returns (r: seq<nat>)
    ensures r == output + RunSymbols(len)
  {
    r := output;
    if len > 0 {
      r := EncodeRunLength(output, (len - 1) / 2);
      r := r + [1 - len % 2];
    }
  }

  /** Moves entries 1 to `j - 1` up by one and puts the last code in front of them. */
  method ShiftList(list: array<nat>, last: nat, found: nat)
    requires list.Length == METACODES && 1 <= found < METACODES
    modifies list
    ensures list[..] == Moved(old(list[..]), last, found)
  {
    ghost var before := list[..];
    var j: int := found - 1;
    while j > 0
      invariant 0 <= j < found
      invariant forall i | j + 1 < i <= found :: list[i] == before[i - 1]
      invariant forall i | 0 <= i <= j + 1 || found < i < METACODES :: list[i] == before[i]
    {
      list[j + 1] := list[j];
      j := j - 1;
    }
    list[1] := last;
    MovedAt(before, last, found);
    assert forall i | 0 <= i < METACODES :: list[i] == MovedEntry(before, last, found, i);
  }

  /** Writes the pending run and the place of the next code, and moves that to the front. */
  method WriteCode(output: seq<nat>, list: array<nat>, last: nat, rl: nat, c: nat, ghost rest: seq<nat>) returns (r: seq<nat>)
    requires list.Length == METACODES && Order(list[..], last) && c < METACODES && c != last && Codes(rest)
    modifies list
    ensures list.Length == METACODES && Order(list[..], c)
    ensures r + Externalized(list[..], c, 0, rest)
         == output + Externalized(old(list[..]), last, rl, [c] + rest)
  {
    hide RunSymbols, Order, Moved;
    ghost var before, xs := list[..], [c] + rest;
    PositionListed(before, last, c);
    assert xs[0] == c && xs[1..] == rest;
    r := EncodeRunLength(output, rl);
    var j := 1;
    while list[j] != c
      invariant 1 <= j <= Position(before, c, 1) < METACODES && Position(before, c, 1) == Position(before, c, j)
      decreases METACODES - j
    {
      j := j + 1;
    }
    r := r + [j + 1];
    MovedKeepsOrder(before, last, j);
    ShiftList(list, last, j);
    ghost var later := Externalized(list[..], c, 0, rest);
    assert output + (RunSymbols(rl) + [j + 1] + later) == output + RunSymbols(rl) + [j + 1] + later;
  }

  /** Writes the metacodes of a sequence of code lengths. */
  method Externalize(xs: seq<nat>) returns (output: seq<nat>)
    requires Codes(xs)
    ensures var start := seq(METACODES, i requires 0 <= i => i);
            Order(start, 0) && output == Externalized(start, 0, 0, xs)
  {
    hide RunSymbols, Order, Moved, Position;
    var list := new nat[METACODES](i requires 0 <= i => i);
    var last: nat, rl: nat, p := 0, 0, 0;
    ghost var start := seq(METACODES, i requires 0 <= i => i);
    assert list[..] == start;
    Identity(start);
    output := [];
    assert xs[0..] == xs && [] + Externalized(start, 0, 0, xs) == Externalized(start, 0, 0, xs);
    while p < |xs|
      invariant 0 <= p <= |xs| && Order(list[..], last)
      invariant output + Externalized(list[..], last, rl, xs[p..]) == Externalized(start, 0, 0, xs)
    {
      var c := xs[p];
      assert xs[p..][0] == c && xs[p..][1..] == xs[p + 1..];
      p := p + 1;
      if c == last {
        rl := rl + 1;
      } else {
        assert [c] + xs[p..] == xs[p - 1..];
        output := WriteCode(output, list, last, rl, c, xs[p..]);
        rl := 0;
        last := c;
      }
    }
    output := EncodeRunLength(output, rl);
  }

  // ---------------------------------------------------------------- reading back

  /** The reader's place: `k` digits of the present run are read and stand for `rl` so far. */
  ghost predicate Reading(input: seq<nat>, pos: nat, list: seq<nat>, last: nat, rl: nat, k: nat, xs: seq<nat>, rest: seq<nat>) {
    && Order(list, last) && Codes(xs) && pos <= |input|
    && var digits := RunSymbols(Repeats(last, xs));
       k <= |digits| && rl == RunValue(digits[..k]) && input[pos..] == digits[k..] + AfterRun(list, last, xs) + rest
  }

  lemma {:induction false} StreamStep(input: seq<nat>, pos: nat, a: nat, tail: seq<nat>)
    requires pos <= |input| && input[pos..] == [a] + tail
    ensures pos < |input| && input[pos] == a && input[pos + 1..] == tail
  {
    assert input[pos] == input[pos..][0];
    assert input[pos + 1..] == input[pos..][1..];
  }

  /** While digits are missing, codes are missing, and the next symbol is a digit. */
  lemma {:induction false} NextDigit(input: seq<nat>, pos: nat, list: seq<nat>, last: nat, rl: nat, k: nat, xs: seq<nat>, rest: seq<nat>)
    requires Reading(input, pos, list, last, rl, k, xs, rest) && k < |RunSymbols(Repeats(last, xs))|
    ensures rl < |xs| && pos < |input| && input[pos] < 2
    ensures Reading(input, pos + 1, list, last, 2 * rl + input[pos] + 1, k + 1, xs, rest)
  {
    hide Order, RunSymbols, AfterRun;
    var n := Repeats(last, xs);
    var digits := RunSymbols(n);
    ValueOfSymbols(n);
    PrefixValue(digits, k);
    ValueOne(digits, k);
    var after := AfterRun(list, last, xs);
    assert digits[k..] == [digits[k]] + digits[k + 1..];
    assert [digits[k]] + digits[k + 1..] + after + rest == [digits[k]] + (digits[k + 1..] + after + rest);
    StreamStep(input, pos, digits[k], digits[k + 1..] + after + rest);
  }

  /** With all digits read, the run length is known, and what follows the run comes next. */
  lemma {:induction false} RunRead(input: seq<nat>, pos: nat, list: seq<nat>, last: nat, rl: nat, k: nat, xs: seq<nat>, rest: seq<nat>)
    requires Reading(input, pos, list, last, rl, k, xs, rest) && k == |RunSymbols(Repeats(last, xs))|
    ensures rl == Repeats(last, xs) && input[pos..] == AfterRun(list, last, xs) + rest
  {
    hide Order, RunSymbols, AfterRun;
    var digits := RunSymbols(Repeats(last, xs));
    ValueOfSymbols(Repeats(last, xs));
    assert digits[..k] == digits && digits[k..] == [];
    assert [] + AfterRun(list, last, xs) == AfterRun(list, last, xs);
  }

  /** The reader goes on exactly while codes are missing. */
  lemma {:induction false} MoreToRead(input: seq<nat>, pos: nat, list: seq<nat>, last: nat, rl: nat, k: nat, xs: seq<nat>, rest: seq<nat>)
    requires Reading(input, pos, list, last, rl, k, xs, rest)
    ensures rl < |xs| <==> k < |RunSymbols(Repeats(last, xs))| || Repeats(last, xs) < |xs|
    ensures pos <= |input|
    ensures rl >= |xs| ==> rl == |xs| == Repeats(last, xs) && input[pos..] == rest
    ensures k <= |RunSymbols(Repeats(last, xs))| && rl <= |xs|
  {
    var n := Repeats(last, xs);
    if k < |RunSymbols(n)| {
      NextDigit(input, pos, list, last, rl, k, xs, rest);
    } else {
      RunRead(input, pos, list, last, rl, k, xs, rest);
      assert [] + rest == rest;
    }
  }

  /** A code symbol names the code after the run; behind it the next run begins. */
  lemma {:induction false} NextCode(input: seq<nat>, pos: nat, list: seq<nat>, last: nat, rl: nat, xs: seq<nat>, rest: seq<nat>)
    requires Reading(input, pos, list, last, rl, |RunSymbols(Repeats(last, xs))|, xs, rest) && Repeats(last, xs) < |xs|
    ensures var n := Repeats(last, xs);
            rl == n && pos < |input| && 2 <= input[pos] <= METACODES == |list|
            && var j := input[pos] - 1;
               list[j] == xs[n] && Reading(input, pos + 1, Moved(list, last, j), xs[n], 0, 0, xs[n + 1..], rest)
  {
    RunRead(input, pos, list, last, rl, |RunSymbols(Repeats(last, xs))|, xs, rest);
    CodeAfterRun(input, pos, list, last, xs, rest);
  }

  lemma {:induction false} CodeAfterRun(input: seq<nat>, pos: nat, list: seq<nat>, last: nat, xs: seq<nat>, rest: seq<nat>)
    requires Order(list, last) && Codes(xs) && pos <= |input| && Repeats(last, xs) < |xs|
    requires input[pos..] == AfterRun(list, last, xs) + rest
    ensures var n := Repeats(last, xs);
            pos < |input| && 2 <= input[pos] <= METACODES == |list|
            && var j := input[pos] - 1;
               list[j] == xs[n] && Reading(input, pos + 1, Moved(list, last, j), xs[n], 0, 0, xs[n + 1..], rest)
  {
    hide Order, Moved, Position, RunSymbols, Externalized;
    var n := Repeats(last, xs);
    PositionListed(list, last, xs[n]);
    var j := Position(list, xs[n], 1);
    MovedKeepsOrder(list, last, j);
    var list', tail := Moved(list, last, j), xs[n + 1..];
    var later := Externalized(list', xs[n], 0, tail);
    assert [j + 1] + later + rest == [j + 1] + (later + rest);
    StreamStep(input, pos, j + 1, later + rest);
    NextRun(input, pos + 1, list', xs[n], tail, rest);
  }

  lemma {:induction false} NextRun(input: seq<nat>, pos: nat, list: seq<nat>, last: nat, xs: seq<nat>, rest: seq<nat>)
    requires Order(list, last) && Codes(xs) && pos <= |input| && input[pos..] == Externalized(list, last, 0, xs) + rest
    ensures Reading(input, pos, list, last, 0, 0, xs, rest)
  {
    hide Order, RunSymbols, Externalized, AfterRun;
    RunFirst(list, last, 0, xs);
    var digits := RunSymbols(Repeats(last, xs));
    assert digits[..0] == [] && digits[0..] == digits;
  }

  /** Writes `count` copies of `v`. */
  method Flush(huffman: array<nat>, at: nat, count: nat, v: nat) returns (p: nat)
    requires at + count <= huffman.Length
    modifies huffman
    ensures p == at + count && huffman[..p] == old(huffman[..at]) + seq(count, _ => v)
  {
    p := at;
    var rl := count;
    while rl > 0
      invariant 0 <= rl <= count && p == at + count - rl
      invariant huffman[..p] == old(huffman[..at]) + seq(count - rl, _ => v)
    {
      huffman[p] := v;
      p := p + 1;
      rl := rl - 1;
    }
  }

  /** Moves the code at position `c` to the front; returns it. */
  method TakeCode(list: array<nat>, last: nat, c: nat) returns (next: nat)
    requires list.Length == METACODES && 1 <= c < METACODES
    modifies list
    ensures next == old(list[c]) && SameBehindFirst(list[..], Moved(old(list[..]), last, c))
  {
    ghost var before := list[..];
    list[0] := last;
    next := list[c];
    forall i | 1 <= i <= c {
      list[i] := list[i - 1];
    }
    MovedAt(before, last, c);
  }

  /** The lists differ at most in their free first position. */
  ghost predicate SameBehindFirst(a: seq<nat>, b: seq<nat>) {
    |a| == |b| == METACODES && a[1..] == b[1..]
  }

  /** Reads metacodes until `numCodes` codes are known. From a stream that begins with the metacodes of `xs` it
      restores `xs` and stops exactly behind them. */
  method Internalize(input: seq<nat>, huffman: array<nat>, numCodes: nat, ghost xs: seq<nat>, ghost rest: seq<nat>)
    returns (pos: nat, ok: bool)
    requires Codes(xs) && |xs| == numCodes <= huffman.Length
    requires var start := seq(METACODES, i requires 0 <= i => i);
             Order(start, 0) && input == Externalized(start, 0, 0, xs) + rest
    modifies huffman
    ensures ok && huffman[..numCodes] == xs && pos <= |input| && input[pos..] == rest
  {
    hide Reading, Order, Moved, Externalized, RunSymbols;
    var list := new nat[METACODES](i requires 0 <= i => i);
    ghost var order: seq<nat> := seq(METACODES, i requires 0 <= i => i);
    var last: nat, p: nat, rl: nat := 0, 0, 0;
    pos := 0;
    ghost var k: nat, left := 0, xs;
    assert input[0..] == input && list[..] == order && xs[0..] == xs && huffman[..0] == [];
    NextRun(input, 0, order, 0, xs, rest);
    while p + rl < numCodes
      invariant p + rl <= numCodes && pos <= |input| && left == xs[p..] && SameBehindFirst(list[..], order)
      invariant huffman[..p] == xs[..p] && Reading(input, pos, order, last, rl, k, left, rest)
      decreases |input| - pos
    {
      MoreToRead(input, pos, order, last, rl, k, left, rest);
      ghost var n := Repeats(last, left);
      if k < |RunSymbols(n)| {
        NextDigit(input, pos, order, last, rl, k, left, rest);
      } else {
        NextCode(input, pos, order, last, rl, left, rest);
      }
      var c := input[pos];
      pos := pos + 1;
      if c < 2 {
        rl := rl + rl + c + 1;
        k := k + 1;
        MoreToRead(input, pos, order, last, rl, k, left, rest);
      } else {
        var p0 := p;
        p := Flush(huffman, p, rl, last);
        RunOf(xs, p0, n, last);
        rl := 0;
        SameAfter(list[..], order, last, c - 1);
        order := Moved(order, last, c - 1);
        last := TakeCode(list, last, c - 1);
        if p > numCodes {
          return pos, false;
        }
        NextOf(xs, p0, n);
        huffman[p] := last;
        p := p + 1;
        k := 0;
        left := left[n + 1..];
      }
    }
    MoreToRead(input, pos, order, last, rl, k, left, rest);
    RunOf(xs, p, rl, last);
    p := Flush(huffman, p, rl, last);
    ok := true;
  }

  /** The next run of a sequence, as copies. */
  lemma {:induction false} RunOf(xs: seq<nat>, p: nat, n: nat, last: nat)
    requires p <= |xs| && n == Repeats(last, xs[p..])
    ensures p + n <= |xs| && xs[..p] + seq(n, _ => last) == xs[..p + n]
  {
    assert forall i | p <= i < p + n :: xs[i] == xs[p..][i - p];
  }

  /** The code behind a run. */
  lemma NextOf(xs: seq<nat>, p: nat, n: nat)
    requires p + n < |xs|
    ensures xs[..p + n + 1] == xs[..p + n] + [xs[p..][n]] && xs[p..][n + 1..] == xs[p + n + 1..]
  {
  }

  lemma {:induction false} SameAfter(a: seq<nat>, b: seq<nat>, last: nat, c: nat)
    requires SameBehindFirst(a, b) && 1 <= c < METACODES
    ensures a[c] == b[c] && forall r | SameBehindFirst(r, Moved(a, last, c)) :: SameBehindFirst(r, Moved(b, last, c))
  {
    MovedAt(a, last, c);
    MovedAt(b, last, c);
  }

  // ---------------------------------------------------------------- an example

  /** Three zeros, two fives, a two and a zero; the metacodes restore them. */
  method Example() returns (output: seq<nat>, again: seq<nat>)
    ensures output == [0, 0, 6, 0, 4, 3] && again == [0, 0, 0, 5, 5, 2, 0]
  {
    hide Externalized, Order;
    ghost var start := seq(METACODES, i requires 0 <= i => i);
    Identity(start);
    ExampleCodes(start);
    output := Externalize([0, 0, 0, 5, 5, 2, 0]);
    var huffman := new nat[7](_ => 0);
    assert output + [] == output;
    var pos, ok := Internalize(output, huffman, 7, [0, 0, 0, 5, 5, 2, 0], []);
    again := huffman[..7];
  }

  /** Another code is written after the run before it. */
  lemma {:induction false} AnotherCode(list: seq<nat>, last: nat, rl: nat, xs: seq<nat>, j: nat)
    requires Order(list, last) && Codes(xs) && xs != [] && xs[0] != last && Position(list, xs[0], 1) == j
    ensures 1 <= j < METACODES && Order(Moved(list, last, j), xs[0])
    ensures Externalized(list, last, rl, xs) == RunSymbols(rl) + [j + 1] + Externalized(Moved(list, last, j), xs[0], 0, xs[1..])
  {
    hide Order, Moved, RunSymbols;
    PositionListed(list, last, xs[0]);
    MovedKeepsOrder(list, last, j);
  }

  lemma {:induction false} SameCode(list: seq<nat>, last: nat, rl: nat, xs: seq<nat>)
    requires Order(list, last) && Codes(xs) && xs != [] && xs[0] == last
    ensures Externalized(list, last, rl, xs) == Externalized(list, last, rl + 1, xs[1..])
  {
    hide Order;
  }

  lemma {:induction false} ExampleCodes(start: seq<nat>)
    requires Order(start, 0) && start == seq(METACODES, i requires 0 <= i => i)
    ensures Externalized(start, 0, 0, [0, 0, 0, 5, 5, 2, 0]) == [0, 0, 6, 0, 4, 3]
  {
    hide Order, RunSymbols, Externalized, Position, Moved;
    ExampleRuns();
    var xs: seq<nat> := [0, 0, 0, 5, 5, 2, 0];
    var a, b := Moved(start, 0, 5), Moved(Moved(start, 0, 5), 5, 3);
    ExamplePlaces(start);
    SameCode(start, 0, 0, xs);
    SameCode(start, 0, 1, xs[1..]);
    SameCode(start, 0, 2, xs[1..][1..]);
    assert xs[1..][1..][1..] == [5, 5, 2, 0];
    AnotherCode(start, 0, 3, [5, 5, 2, 0], 5);
    assert [5, 5, 2, 0][1..] == [5, 2, 0];
    SameCode(a, 5, 0, [5, 2, 0]);
    assert [5, 2, 0][1..] == [2, 0];
    AnotherCode(a, 5, 1, [2, 0], 3);
    assert [2, 0][1..] == [0];
    AnotherCode(b, 2, 0, [0], 2);
    assert [0][1..] == [];
    NothingMore(Moved(b, 2, 2), 0);
  }

  lemma NothingMore(list: seq<nat>, last: nat)
    requires Order(list, last)
    ensures Externalized(list, last, 0, []) == []
  {
  }

  lemma {:induction false} ExamplePlaces(start: seq<nat>)
    requires start == seq(METACODES, i requires 0 <= i => i)
    ensures Position(start, 5, 1) == 5
    ensures Position(Moved(start, 0, 5), 2, 1) == 3
    ensures Position(Moved(Moved(start, 0, 5), 5, 3), 0, 1) == 2
  {
    hide Moved;
    var a := Moved(start, 0, 5);
    var b := Moved(a, 5, 3);
    MovedAt(start, 0, 5);
    MovedAt(a, 5, 3);
    assert a[1] == 0 && a[2] == 1 && a[3] == 2 && b[1] == 5 && b[2] == 0;
    assert Position(start, 5, 5) == 5 && Position(start, 5, 4) == 5 && Position(start, 5, 3) == 5 && Position(start, 5, 2) == 5;
    assert Position(a, 2, 3) == 3 && Position(a, 2, 2) == 3;
    assert Position(b, 0, 2) == 2;
  }

  lemma ExampleRuns()
    ensures RunSymbols(0) == [] && RunSymbols(1) == [0] && RunSymbols(3) == [0, 0]
  {
    assert RunSymbols(1) == RunSymbols(0) + [0];
    assert RunSymbols(3) == RunSymbols(1) + [0];
  }
}
