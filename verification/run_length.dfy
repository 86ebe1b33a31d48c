/** The byte-oriented run-length coder: how it cuts a source of whole elements, and what its output stands for. */
module RunLength {
  import opened ByteValues

  type Element = seq<Byte>

  /** All elements have the coder's width. */
  ghost predicate Whole(e: seq<Element>, width: nat) {
    forall i | 0 <= i < |e| :: |e[i]| == width
  }

  /** A count and one element, or a count and so many elements. */
  datatype Token = Run(count: nat, element: Element) | Literals(elements: seq<Element>)

  ghost predicate TokenOk(t: Token, width: nat) {
    match t
    case Run(count, element) => 1 <= count <= 128 && |element| == width
    case Literals(elements) => 1 <= |elements| <= 128 && Whole(elements, width)
  }

  ghost predicate TokensOk(ts: seq<Token>, width: nat) {
    forall i | 0 <= i < |ts| :: TokenOk(ts[i], width)
  }

  function Joined(e: seq<Element>): seq<Byte> {
    if e == [] then [] else e[0] + Joined(e[1..])
  }

  /** A run is announced by its length less one, literals by their negated number. */
  ghost function TokenBytes(t: Token, width: nat): seq<Byte>
    requires TokenOk(t, width)
  {
    match t
    case Run(count, element) => [count - 1] + element
    case Literals(elements) => [256 - |elements|] + Joined(elements)
  }

  ghost function Bytes(ts: seq<Token>, width: nat): seq<Byte>
    requires TokensOk(ts, width)
  {
    if ts == [] then [] else TokenBytes(ts[0], width) + Bytes(ts[1..], width)
  }

  ghost function Copies(x: Element, n: nat): (r: seq<Element>)
    ensures |r| == n
  {
    seq(n, _ => x)
  }

  ghost function Meaning(t: Token): seq<Element> {
    match t
    case Run(count, element) => Copies(element, count)
    case Literals(elements) => elements
  }

  ghost function Expand(ts: seq<Token>): seq<Element> {
    if ts == [] then [] else Meaning(ts[0]) + Expand(ts[1..])
  }

  lemma {:induction false} ExpandConcat(a: seq<Token>, b: seq<Token>)
    ensures Expand(a + b) == Expand(a) + Expand(b)
  {
    hide Meaning;
    if a == [] {
      assert a + b == b;
    } else {
      ExpandConcat(a[1..], b);
      assert (a + b)[1..] == a[1..] + b && (a + b)[0] == a[0];
      assert Expand(a + b) == Meaning(a[0]) + (Expand(a[1..]) + Expand(b));
    }
  }

  lemma {:induction false} BytesConcat(a: seq<Token>, b: seq<Token>, width: nat)
    requires TokensOk(a, width) && TokensOk(b, width)
    ensures TokensOk(a + b, width) && Bytes(a + b, width) == Bytes(a, width) + Bytes(b, width)
  {
    hide TokenOk, TokenBytes;
    if a == [] {
      assert a + b == b;
    } else {
      BytesConcat(a[1..], b, width);
      assert (a + b)[1..] == a[1..] + b && (a + b)[0] == a[0];
      assert Bytes(a, width) == TokenBytes(a[0], width) + Bytes(a[1..], width);
    }
  }

  // ---------------------------------------------------------------- how a source is cut

  /** Where the elements stop being equal to the one at `p`. */
  function RunEnd(e: seq<Element>, p: nat, q: nat): (r: nat)
    requires p < q <= |e|
    ensures q <= r <= |e| && (forall i | q <= i < r :: e[i] == e[p]) && (r < |e| ==> e[r] != e[p])
    decreases |e| - q
  {
    if q == |e| || e[q] != e[p] then q else RunEnd(e, p, q + 1)
  }

  predicate RunStarts(e: seq<Element>, p: nat) {
    p + 1 < |e| && e[p] == e[p + 1]
  }

  /** Where the coder goes on after a run: a different element that is the last is swallowed. */
  function RunStop(e: seq<Element>, p: nat): (r: nat)
    requires RunStarts(e, p)
    ensures p + 2 <= r <= |e|
  {
    var q := RunEnd(e, p, p + 1);
    if q + 1 >= |e| then |e| else q
  }

  /** Where the coder goes on after literals: behind the first of two equal elements that are not the last two. */
  function LiteralStop(e: seq<Element>, q: nat): (r: nat)
    requires q < |e|
    ensures q < r <= |e|
    decreases |e| - q
  {
    if q + 2 >= |e| then |e| else if e[q] == e[q + 1] then q + 1 else LiteralStop(e, q + 1)
  }

  function Stop(e: seq<Element>, p: nat): (r: nat)
    requires p < |e|
    ensures p < r <= |e|
  {
    if RunStarts(e, p) then RunStop(e, p) else LiteralStop(e, p)
  }

  /** Some run is cut so that exactly one element follows it. */
  predicate LosesLast(e: seq<Element>, p: nat)
    requires p <= |e|
    decreases |e| - p
  {
    p < |e| && ((RunStarts(e, p) && RunEnd(e, p, p + 1) == |e| - 1) || LosesLast(e, Stop(e, p)))
  }

  ghost function RunTokens(x: Element, n: nat): seq<Token> {
    if n == 0 then [] else if n > 128 then [Run(128, x)] + RunTokens(x, n - 128) else [Run(n, x)]
  }

  ghost function LiteralTokens(e: seq<Element>): seq<Token>
    decreases |e|
  {
    if e == [] then [] else if |e| > 128 then [Literals(e[..128])] + LiteralTokens(e[128..]) else [Literals(e)]
  }

  /** The tokens for the elements from `p` on. */
  ghost function Tokens(e: seq<Element>, p: nat): seq<Token>
    requires p <= |e|
    decreases |e| - p
  {
    if p == |e| then []
    else
      var stop := Stop(e, p);
      (if RunStarts(e, p) then RunTokens(e[p], stop - p) else LiteralTokens(e[p..stop])) + Tokens(e, stop)
  }

  lemma {:induction false} RunTokensMean(x: Element, n: nat, width: nat)
    requires |x| == width
    ensures TokensOk(RunTokens(x, n), width) && Expand(RunTokens(x, n)) == Copies(x, n)
  {
    if n > 128 {
      RunTokensMean(x, n - 128, width);
      var ts := RunTokens(x, n);
      assert ts[0] == Run(128, x) && ts[1..] == RunTokens(x, n - 128);
      assert Copies(x, 128) + Copies(x, n - 128) == Copies(x, n);
    } else if n > 0 {
      OneToken(Run(n, x));
    }
  }

  lemma {:induction false} OneToken(t: Token)
    ensures Expand([t]) == Meaning(t)
  {
    assert [t][1..] == [];
    assert Meaning(t) + [] == Meaning(t);
  }

  lemma {:induction false} LiteralTokensMean(e: seq<Element>, width: nat)
    requires Whole(e, width)
    ensures TokensOk(LiteralTokens(e), width) && Expand(LiteralTokens(e)) == e
    decreases |e|
  {
    if |e| > 128 {
      LiteralTokensMean(e[128..], width);
      var ts := LiteralTokens(e);
      assert ts[0] == Literals(e[..128]) && ts[1..] == LiteralTokens(e[128..]);
      assert e[..128] + e[128..] == e;
    } else if e != [] {
      OneToken(Literals(e));
    }
  }

  /** What decompression yields: everything, or everything but the last element, which repeats the one before. */
  ghost function Kept(e: seq<Element>, p: nat): (r: seq<Element>)
    requires p <= |e|
  {
    if LosesLast(e, p) then LosingNeedsTwo(e, p); e[p..|e| - 1] + [e[|e| - 2]] else e[p..]
  }

  lemma {:induction false} LosingNeedsTwo(e: seq<Element>, p: nat)
    requires p <= |e| && LosesLast(e, p)
    ensures p + 2 < |e| && e[|e| - 1] != e[|e| - 2]
    decreases |e| - p
  {
    if !(RunStarts(e, p) && RunEnd(e, p, p + 1) == |e| - 1) {
      LosingNeedsTwo(e, Stop(e, p));
    }
  }

  /** The tokens stand for what is kept. */
  lemma {:induction false} TokensMean(e: seq<Element>, p: nat, width: nat)
    requires Whole(e, width) && p <= |e|
    ensures TokensOk(Tokens(e, p), width) && Expand(Tokens(e, p)) == Kept(e, p)
    decreases |e| - p
  {
    if p < |e| {
      var stop := Stop(e, p);
      TokensMean(e, stop, width);
      if RunStarts(e, p) {
        RunSegment(e, p, width);
      } else {
        LiteralTokensMean(e[p..stop], width);
        ExpandConcat(LiteralTokens(e[p..stop]), Tokens(e, stop));
        LiteralSegment(e, p);
      }
    }
  }

  lemma {:induction false} LiteralSegment(e: seq<Element>, p: nat)
    requires p < |e| && !RunStarts(e, p)
    ensures e[p..Stop(e, p)] + Kept(e, Stop(e, p)) == Kept(e, p)
  {
    var stop := Stop(e, p);
    assert LosesLast(e, p) == LosesLast(e, stop);
    if LosesLast(e, stop) {
      LosingNeedsTwo(e, stop);
      assert e[p..stop] + e[stop..|e| - 1] == e[p..|e| - 1];
    }
  }

  lemma {:induction false} RunSegment(e: seq<Element>, p: nat, width: nat)
    requires Whole(e, width) && p < |e| && RunStarts(e, p)
    requires TokensOk(Tokens(e, Stop(e, p)), width) && Expand(Tokens(e, Stop(e, p))) == Kept(e, Stop(e, p))
    ensures TokensOk(Tokens(e, p), width) && Expand(Tokens(e, p)) == Kept(e, p)
  {
    hide Tokens, Stop, Kept, Copies, TokenOk, RunTokens, Expand;
    var stop := Stop(e, p);
    RunTokensMean(e[p], stop - p, width);
    ExpandConcat(RunTokens(e[p], stop - p), Tokens(e, stop));
    TokensAtRun(e, p);
    CopiesAndKept(e, p);
  }

  lemma {:induction false} CopiesAndKept(e: seq<Element>, p: nat)
    requires p < |e| && RunStarts(e, p)
    ensures Copies(e[p], Stop(e, p) - p) + Kept(e, Stop(e, p)) == Kept(e, p)
  {
    hide RunEnd;
    var stop, q := Stop(e, p), RunEnd(e, p, p + 1);
    if q == |e| - 1 {
      AtTheEnd(e);
      assert Copies(e[p], stop - p) == e[p..|e| - 1] + [e[|e| - 2]];
    } else {
      assert Copies(e[p], stop - p) == e[p..stop];
      if LosesLast(e, stop) {
        LosingNeedsTwo(e, stop);
        assert e[p..stop] + e[stop..|e| - 1] == e[p..|e| - 1];
      }
    }
  }

  lemma {:induction false} AtTheEnd(e: seq<Element>)
    ensures Tokens(e, |e|) == [] && Kept(e, |e|) == []
  {
  }

  lemma {:induction false} TokensAtRun(e: seq<Element>, p: nat)
    requires p < |e| && RunStarts(e, p)
    ensures Tokens(e, p) == RunTokens(e[p], Stop(e, p) - p) + Tokens(e, Stop(e, p))
  {
  }

  /** Decompressing what was compressed restores the source exactly if no run is cut so that one element follows. */
  lemma {:induction false} RoundTrip(e: seq<Element>, width: nat)
    requires Whole(e, width)
    ensures Expand(Tokens(e, 0)) == e <==> !LosesLast(e, 0)
  {
    TokensMean(e, 0, width);
    assert e[0..] == e;
    if LosesLast(e, 0) {
      LosingNeedsTwo(e, 0);
      assert Kept(e, 0)[|e| - 1] == e[|e| - 2] != e[|e| - 1];
    }
  }

  /** Two equal elements and a different one come back as three equal ones. */
  lemma {:induction false} TwoAndOne(x: Element, y: Element)
    requires x != y && |x| == |y|
    ensures LosesLast([x, x, y], 0) && Expand(Tokens([x, x, y], 0)) == [x, x, x]
  {
    var e := [x, x, y];
    assert RunEnd(e, 0, 2) == 2;
    assert RunEnd(e, 0, 1) == 2;
    TokensMean(e, 0, |x|);
    assert e[0..2] == [x, x];
  }

  // ---------------------------------------------------------------- the measuring and the writing pass

  datatype Destination = Nowhere | Buffer(room: nat)

  /** What a pass hands out: the bytes if there is a destination, their number in any case. */
  ghost predicate Emitted(writing: bool, out: seq<Byte>, size: nat, bytes: seq<Byte>) {
    size == |bytes| && out == if writing then bytes else []
  }

  /** Reads on while the elements repeat the one at `last`, and un-reads the one that breaks the run if more follow. */
  method SkipRun(e: seq<Element>, last: nat) returns (pos: nat)
    requires RunStarts(e, last)
    ensures pos == RunStop(e, last)
  {
    pos := last + 1;
    var temp := e[pos];
    pos := pos + 1;
    while pos < |e| && e[last] == temp
      invariant last + 2 <= pos <= |e| && temp == e[pos - 1]
      invariant RunEnd(e, last, last + 1) == RunEnd(e, last, pos - 1)
    {
      temp := e[pos];
      pos := pos + 1;
    }
    if pos < |e| {
      pos := pos - 1;
    }
  }

  /** Reads on while neighbours differ, and un-reads the second of two equal ones if more follow. */
  method SkipLiterals(e: seq<Element>, last: nat) returns (pos: nat)
    requires last < |e| && !RunStarts(e, last)
    ensures pos == LiteralStop(e, last)
  {
    pos := if last + 1 < |e| then last + 1 else last;
    var bytes, shouldCopy := e[last], false;
    var temp := e[pos];
    pos := pos + 1;
    shouldCopy := true;
    while pos < |e| && bytes != temp
      invariant last < pos <= |e| && shouldCopy && temp == e[pos - 1]
      invariant pos < |e| ==> last + 2 <= pos && bytes == e[pos - 2]
      invariant LiteralStop(e, last) == if pos < |e| then LiteralStop(e, pos - 2) else |e|
    {
      if shouldCopy {
        bytes := temp;
      }
      temp := e[pos];
      pos := pos + 1;
    }
    if pos < |e| {
      pos := pos - 1;
    }
  }

  /** Announces `pairs` copies of one element, at most 128 at a time. */
  method WriteRun(x: Element, pairs: nat, width: nat, writing: bool) returns (out: seq<Byte>, size: nat)
    requires |x| == width
    ensures TokensOk(RunTokens(x, pairs), width)
    ensures Emitted(writing, out, size, Bytes(RunTokens(x, pairs), width))
  {
    hide Bytes, RunTokens, TokensOk;
    RunTokensMean(x, pairs, width);
    out, size := [], 0;
    var totalPair: nat := pairs;
    while totalPair > 0
      invariant totalPair <= pairs && TokensOk(RunTokens(x, totalPair), width)
      invariant size + |Bytes(RunTokens(x, totalPair), width)| == |Bytes(RunTokens(x, pairs), width)|
      invariant writing ==> out + Bytes(RunTokens(x, totalPair), width) == Bytes(RunTokens(x, pairs), width)
      invariant !writing ==> out == []
    {
      var session: Byte := if totalPair > 128 then 127 else totalPair - 1;
      RunStep(x, totalPair, width);
      ghost var before := out;
      ghost var rest: nat := totalPair - (session + 1);
      if writing {
        out := out + [session] + x;
        assert before + ([session] + x + Bytes(RunTokens(x, rest), width)) == out + Bytes(RunTokens(x, rest), width);
      }
      size := size + width + 1;
      totalPair := totalPair - (session + 1);
    }
    NoRun(x, width);
  }

  lemma NoRun(x: Element, width: nat)
    ensures TokensOk(RunTokens(x, 0), width) && Bytes(RunTokens(x, 0), width) == []
  {
  }

  lemma {:induction false} RunStep(x: Element, n: nat, width: nat)
    requires |x| == width && 0 < n
    ensures
      var session: nat := if n > 128 then 127 else n - 1;
      var rest: nat := n - (session + 1);
      && TokensOk(RunTokens(x, n), width) && TokensOk(RunTokens(x, rest), width)
      && Bytes(RunTokens(x, n), width) == [session] + x + Bytes(RunTokens(x, rest), width)
  {
    RunTokensMean(x, n, width);
    var session: nat := if n > 128 then 127 else n - 1;
    var rest: nat := n - (session + 1);
    RunTokensMean(x, rest, width);
    var ts := RunTokens(x, n);
    assert ts[0] == Run(session + 1, x) && ts[1..] == RunTokens(x, rest);
  }

  /** The bytes for literals from `p` up to `stop`. */
  ghost function LiteralBytes(e: seq<Element>, p: nat, stop: nat, width: nat): seq<Byte>
    requires Whole(e, width) && p <= stop <= |e|
  {
    LiteralTokensMean(e[p..stop], width);
    Bytes(LiteralTokens(e[p..stop]), width)
  }

  /** Announces the elements from `last` up to `stop`, at most 128 at a time, and copies them. */
  method WriteLiterals(e: seq<Element>, last: nat, stop: nat, width: nat, writing: bool)
      returns (out: seq<Byte>, size: nat)
    requires Whole(e, width) && last <= stop <= |e|
    ensures Emitted(writing, out, size, LiteralBytes(e, last, stop, width))
  {
    hide LiteralBytes, Joined;
    out, size := [], 0;
    var totalPair: nat := stop - last;
    while totalPair > 0
      invariant totalPair <= stop - last
      invariant size + |LiteralBytes(e, stop - totalPair, stop, width)| == |LiteralBytes(e, last, stop, width)|
      invariant writing ==>
        out + LiteralBytes(e, stop - totalPair, stop, width) == LiteralBytes(e, last, stop, width)
      invariant !writing ==> out == []
    {
      var session: int := if totalPair > 128 then -128 else -(totalPair as int);
      var from: nat := stop - totalPair;
      var next: nat := from - session;
      LiteralStep(e, from, next, stop, width);
      ghost var before := out;
      ghost var tail := LiteralBytes(e, next, stop, width);
      if writing {
        out := out + [256 + session] + Joined(e[from..next]);
        assert before + ([256 + session] + Joined(e[from..next]) + tail) == out + tail;
      }
      size := size + 1 + -session * width;
      totalPair := totalPair + session;
    }
    NoLiterals(e, stop, width);
  }

  lemma NoLiterals(e: seq<Element>, stop: nat, width: nat)
    requires Whole(e, width) && stop <= |e|
    ensures LiteralBytes(e, stop, stop, width) == []
  {
    assert e[stop..stop] == [];
  }

  lemma {:induction false} JoinedLength(e: seq<Element>, width: nat)
    requires Whole(e, width)
    ensures |Joined(e)| == |e| * width
  {
    if e != [] {
      JoinedLength(e[1..], width);
      assert |e| * width == width + (|e| - 1) * width;
    }
  }

  lemma {:induction false} JoinedConcat(a: seq<Element>, b: seq<Element>)
    ensures Joined(a + b) == Joined(a) + Joined(b)
  {
    if a == [] {
      assert a + b == b;
    } else {
      JoinedConcat(a[1..], b);
      assert (a + b)[1..] == a[1..] + b;
    }
  }

  lemma {:induction false} LiteralStep(e: seq<Element>, p: nat, next: nat, stop: nat, width: nat)
    requires Whole(e, width) && p < stop <= |e|
    requires next == if stop - p > 128 then p + 128 else stop
    ensures |Joined(e[p..next])| == (next - p) * width
    ensures LiteralBytes(e, p, stop, width) == [256 - (next - p)] + Joined(e[p..next]) + LiteralBytes(e, next, stop, width)
    ensures |LiteralBytes(e, p, stop, width)| == 1 + (next - p) * width + |LiteralBytes(e, next, stop, width)|
  {
    hide Joined, Whole;
    WholeSlice(e, p, next, width);
    WholeSlice(e, p, stop, width);
    WholeSlice(e, next, stop, width);
    LiteralTokensMean(e[p..stop], width);
    LiteralTokensMean(e[next..stop], width);
    var ts := LiteralTokens(e[p..stop]);
    assert e[p..stop][..next - p] == e[p..next] && e[p..stop][next - p..] == e[next..stop];
    assert ts[0] == Literals(e[p..next]) && ts[1..] == LiteralTokens(e[next..stop]);
    JoinedLength(e[p..next], width);
  }

  lemma WholeSlice(e: seq<Element>, p: nat, q: nat, width: nat)
    requires Whole(e, width) && p <= q <= |e|
    ensures Whole(e[p..q], width)
  {
  }

  /** One run or one stretch of literals, and where the next begins. */
  method Segment(e: seq<Element>, last: nat, width: nat, writing: bool)
      returns (pos: nat, out: seq<Byte>, size: nat)
    requires Whole(e, width) && last < |e|
    ensures pos == Stop(e, last)
    ensures TokensOk(Tokens(e, last), width) && TokensOk(Tokens(e, pos), width)
    ensures size + |Bytes(Tokens(e, pos), width)| == |Bytes(Tokens(e, last), width)|
    ensures out == [] || writing
    ensures writing ==> size == |out| && Bytes(Tokens(e, last), width) == out + Bytes(Tokens(e, pos), width)
  {
    hide Bytes, TokenOk, Kept, RunEnd, RunStop, LiteralStop, RunTokens, LiteralTokens, Joined, Copies, Expand;
    if RunStarts(e, last) {
      pos := SkipRun(e, last);
      out, size := WriteRun(e[last], pos - last, width, writing);
      TokensMean(e, pos, width);
      BytesConcat(RunTokens(e[last], pos - last), Tokens(e, pos), width);
    } else {
      pos := SkipLiterals(e, last);
      out, size := WriteLiterals(e, last, pos, width, writing);
      TokensMean(e, pos, width);
      LiteralTokensMean(e[last..pos], width);
      BytesConcat(LiteralTokens(e[last..pos]), Tokens(e, pos), width);
    }
  }

  /** The compressed form of a whole source. */
  ghost function Packed(e: seq<Element>, width: nat): seq<Byte>
    requires Whole(e, width)
  {
    TokensMean(e, 0, width);
    Bytes(Tokens(e, 0), width)
  }

  /** Where the coder stops from `p` on: at the end, or behind the segment that uses up the room. */
  ghost function Until(e: seq<Element>, p: nat, width: nat, room: int): (q: nat)
    requires Whole(e, width) && p <= |e|
    ensures p <= q <= |e|
    decreases |e| - p
  {
    if p == |e| || room <= 0 then p
    else
      TokensMean(e, p, width);
      TokensMean(e, Stop(e, p), width);
      Until(e, Stop(e, p), width, room - (|Bytes(Tokens(e, p), width)| - |Bytes(Tokens(e, Stop(e, p)), width)|))
  }

  /**
   * Both passes: without a destination only the size is counted; with one, segments are written while it has room.
   * The measured size is the number of bytes that a large enough destination receives.
   */
  method Compress(e: seq<Element>, width: nat, dest: Destination) returns (out: seq<Byte>, size: nat)
    requires Whole(e, width)
    ensures dest.Nowhere? ==> out == [] && size == |Packed(e, width)|
    ensures dest.Buffer? ==> size == |out| && out <= Packed(e, width)
    ensures dest.Buffer? ==> out == Packed(e, width) || dest.room <= |out|
    ensures dest.Buffer? ==> var q := Until(e, 0, width, dest.room);
                             TokensOk(Tokens(e, q), width) && out + Bytes(Tokens(e, q), width) == Packed(e, width)
  {
    hide Bytes, Tokens, TokensOk, Kept, Stop;
    TokensMean(e, 0, width);
    var pos: nat := 0;
    out, size := [], 0;
    while pos < |e| && (dest.Nowhere? || |out| < dest.room)
      invariant pos <= |e| && TokensOk(Tokens(e, pos), width)
      invariant size + |Bytes(Tokens(e, pos), width)| == |Bytes(Tokens(e, 0), width)|
      invariant dest.Nowhere? ==> out == []
      invariant dest.Buffer? ==> size == |out| && out + Bytes(Tokens(e, pos), width) == Bytes(Tokens(e, 0), width)
      invariant dest.Buffer? ==> Until(e, pos, width, dest.room - |out|) == Until(e, 0, width, dest.room)
    {
      var next, more, n := Segment(e, pos, width, dest.Buffer?);
      assert dest.Buffer? ==> out + (more + Bytes(Tokens(e, next), width)) == (out + more) + Bytes(Tokens(e, next), width);
      out, size, pos := out + more, size + n, next;
    }
    if pos == |e| {
      NoBytesAtTheEnd(e, width);
    }
  }

  lemma {:induction false} NoBytesAtTheEnd(e: seq<Element>, width: nat)
    ensures TokensOk(Tokens(e, |e|), width) && Bytes(Tokens(e, |e|), width) == []
  {
    AtTheEnd(e);
  }

  // ---------------------------------------------------------------- decompression

  ghost function Plain(ts: seq<Token>): seq<Byte> {
    Joined(Expand(ts))
  }

  /** The first token that the room does not hold is a run. */
  ghost predicate RunStraddles(ts: seq<Token>, room: nat) {
    ts != [] && room > 0 &&
    var size := |Joined(Meaning(ts[0]))|;
    if size <= room then RunStraddles(ts[1..], room - size) else ts[0].Run?
  }

  /** Two copies of a byte for a room of one: both are written. */
  lemma {:induction false} OneElementOver()
    ensures TokensOk([Run(2, [7])], 1) && Bytes([Run(2, [7])], 1) == [1, 7]
    ensures RunStraddles([Run(2, [7])], 1)
  {
    var ts := [Run(2, [7])];
    assert ts[1..] == [];
    assert Bytes(ts, 1) == [1] + [7] + [];
    assert Meaning(ts[0]) == [[7], [7]] && [[7], [7]][1..] == [[7]];
    assert Joined([[7]]) == [7] + [] && Joined([[7], [7]]) == [7] + [7];
  }

  /** One count and what belongs to it: the bytes that leave, and how far the source is read. */
  method ExpandOne(source: seq<Byte>, pos: nat, width: nat, left: nat, ghost ts: seq<Token>)
      returns (out: seq<Byte>, next: nat, ghost whole: nat)
    requires 0 < width && 0 < left && ts != [] && TokensOk(ts, width)
    requires pos < |source| && source[pos..] == Bytes(ts, width)
    ensures out <= Joined(Meaning(ts[0]))
    ensures out == Joined(Meaning(ts[0])) || left <= |out|
    ensures |out| <= left + width
    ensures |out| > left <==> ts[0].Run? && |Joined(Meaning(ts[0]))| > left
    ensures ts[0].Run? || out == Joined(Meaning(ts[0])) ==> |out| == whole * width
    ensures out == Joined(Meaning(ts[0])) ==> next <= |source| && source[next..] == Bytes(ts[1..], width)
  {
    hide Bytes, Joined, Expand, TokenOk, TokensOk, TokenBytes, Copies, Whole;
    var byte: int := source[pos];
    var count: int := if byte < 128 then byte else byte - 256;
    FirstToken(source, pos, width, ts);
    if count >= 0 {
      var announced := count;
      count := if count < left / width then count else left / width;
      var comp := source[pos + 1..pos + 1 + width];
      next := pos + 1 + width;
      out := Repeat(comp, count + 1);
      whole := count + 1;
      RunFits(comp, count + 1, announced + 1, left, width);
    } else {
      var number := -count * width;
      var copied := if number < left then number else left;
      next := pos + 1 + copied;
      out := source[pos + 1..next];
      whole := -count;
    }
  }

  /** Writes an element over and over. */
  method Repeat(x: Element, n: nat) returns (out: seq<Byte>)
    ensures out == Joined(Copies(x, n))
  {
    out := [];
    var count: nat := n;
    assert Copies(x, 0) == [];
    while count > 0
      invariant count <= n && out == Joined(Copies(x, n - count))
    {
      JoinedConcat(Copies(x, n - count), [x]);
      assert Copies(x, n - count) + [x] == Copies(x, n - count + 1);
      assert Joined([x]) == x + Joined([]) == x;
      out := out + x;
      count := count - 1;
    }
  }

  lemma {:induction false} RunFits(x: Element, n: nat, announced: nat, left: nat, width: nat)
    requires |x| == width && 0 < width && 0 < n
    requires n == announced || (n < announced && n == left / width + 1)
    requires n <= left / width + 1
    ensures Joined(Copies(x, n)) <= Joined(Copies(x, announced))
    ensures n == announced || left <= |Joined(Copies(x, n))|
    ensures |Joined(Copies(x, n))| <= left + width && |Joined(Copies(x, n))| == n * width
    ensures |Joined(Copies(x, n))| > left <==> |Joined(Copies(x, announced))| > left
  {
    hide Joined;
    JoinedConcat(Copies(x, n), Copies(x, announced - n));
    assert Copies(x, n) + Copies(x, announced - n) == Copies(x, announced);
    JoinedLength(Copies(x, n), width);
    JoinedLength(Copies(x, announced), width);
    WholeElements(n, left, width);
    if n < announced {
      MoreElements(n, announced, left, width);
    }
  }

  lemma MoreElements(n: nat, announced: nat, left: nat, width: nat)
    requires 0 < width && n == left / width + 1 && n <= announced
    ensures left < n * width <= announced * width
  {
    var q := left / width;
    assert (q + 1) * width == q * width + width;
    assert announced * width == n * width + (announced - n) * width;
    assert (announced - n) * width >= 0;
  }

  lemma WholeElements(n: nat, left: nat, width: nat)
    requires 0 < width && n <= left / width + 1
    ensures n * width <= left + width
    ensures n == left / width + 1 ==> left <= n * width
  {
    var q := left / width;
    assert q * width <= left < q * width + width;
    assert n * width <= (q + 1) * width;
    assert (q + 1) * width == q * width + width;
  }

  lemma {:induction false} FirstToken(source: seq<Byte>, pos: nat, width: nat, ts: seq<Token>)
    requires 0 < width && ts != [] && TokensOk(ts, width)
    requires pos < |source| && source[pos..] == Bytes(ts, width)
    ensures
      var byte := source[pos];
      if byte < 128 then
        && pos + 1 + width <= |source|
        && ts[0] == Run(byte + 1, source[pos + 1..pos + 1 + width])
        && source[pos + 1 + width..] == Bytes(ts[1..], width)
      else
        var stop := pos + 1 + (256 - byte) * width;
        && ts[0].Literals? && pos + 1 <= stop <= |source|
        && Joined(ts[0].elements) == source[pos + 1..stop]
        && source[stop..] == Bytes(ts[1..], width)
  {
    hide Joined, Bytes, TokensOk, TokenOk, TokenBytes, Whole;
    TokenParts(ts[0], width, ts);
    var head := TokenBytes(ts[0], width)[0];
    var body := TokenBytes(ts[0], width)[1..];
    BytesSplit(source, pos, ts, width);
    if ts[0].Literals? {
      assert (256 - head) * width == |body|;
    }
  }

  lemma BytesSplit(source: seq<Byte>, pos: nat, ts: seq<Token>, width: nat)
    requires ts != [] && TokensOk(ts, width) && TokenOk(ts[0], width) && TokenBytes(ts[0], width) != []
    requires pos < |source| && source[pos..] == Bytes(ts, width)
    ensures
      var first := TokenBytes(ts[0], width);
      && TokensOk(ts[1..], width) && pos + |first| <= |source| && source[pos] == first[0]
      && source[pos + 1..pos + |first|] == first[1..] && source[pos + |first|..] == Bytes(ts[1..], width)
  {
    hide TokenBytes, TokenOk, Joined;
    var first, rest := TokenBytes(ts[0], width), Bytes(ts[1..], width);
    Cut(source, pos, first, rest);
  }

  lemma Cut(source: seq<Byte>, pos: nat, first: seq<Byte>, rest: seq<Byte>)
    requires pos < |source| && source[pos..] == first + rest && first != []
    ensures pos + |first| <= |source| && source[pos] == first[0]
    ensures source[pos + 1..pos + |first|] == first[1..] && source[pos + |first|..] == rest
  {
    assert source[pos..][..|first|] == first;
    assert source[pos..][|first|..] == rest;
    assert source[pos..pos + |first|] == first;
  }

  lemma TokenParts(t: Token, width: nat, ts: seq<Token>)
    requires ts != [] && t == ts[0] && TokensOk(ts, width)
    ensures TokenOk(t, width)
    ensures
      var first := TokenBytes(t, width);
      && first != []
      && if t.Run? then first[0] < 128 && t.count == first[0] + 1 && first[1..] == t.element && |first| == 1 + width
         else first[0] >= 128 && first[1..] == Joined(t.elements) && |first| == 1 + (256 - first[0]) * width
  {
    hide Joined;
    assert TokenOk(ts[0], width);
    if t.Literals? {
      JoinedLength(t.elements, width);
    }
  }

  /**
   * A well-formed source is expanded in order. What leaves is a beginning of what the tokens stand for: all of it
   * if there is room, and otherwise as much as there is room for. It is more than there is room for exactly if the
   * first token that does not fit is a run: then it ends with the first whole element beyond the room.
   */
  method Decompress(source: seq<Byte>, width: nat, room: nat, ghost ts: seq<Token>) returns (out: seq<Byte>)
    requires 0 < width && TokensOk(ts, width) && source == Bytes(ts, width)
    ensures out <= Plain(ts)
    ensures out == Plain(ts) || room <= |out|
    ensures |out| <= room + width
    ensures |out| > room <==> RunStraddles(ts, room)
    ensures RunStraddles(ts, room) ==> |out| == (room / width + 1) * width
  {
    hide Bytes, TokensOk, Meaning, Joined, Expand, RunStraddles;
    out := [];
    ghost var elements: nat := 0;
    var pos: nat := 0;
    ghost var k: nat := 0;
    assert ts[0..] == ts;
    if room == 0 {
      NothingStraddles(ts, room);
    }
    while pos < |source| && |out| < room
      invariant k <= |ts| && |out| <= room + width && out <= Plain(ts)
      invariant |out| < room ==> pos <= |source| && TokensOk(ts[k..], width) && source[pos..] == Bytes(ts[k..], width)
      invariant |out| < room ==> out + Plain(ts[k..]) == Plain(ts)
      invariant |out| < room ==> RunStraddles(ts[k..], room - |out|) == RunStraddles(ts, room)
      invariant |out| >= room ==> (|out| > room <==> RunStraddles(ts, room))
      invariant |out| != room ==> |out| == elements * width
      decreases |ts| - k
    {
      ghost var rest := ts[k..];
      NoBytesNoTokens(rest, width);
      var more, next;
      ghost var whole;
      more, next, whole := ExpandOne(source, pos, width, room - |out|, rest);
      assert (elements + whole) * width == elements * width + whole * width;
      PlainStep(rest, width);
      assert out + (Joined(Meaning(rest[0])) + Plain(rest[1..])) == (out + Joined(Meaning(rest[0]))) + Plain(rest[1..]);
      assert rest[1..] == ts[k + 1..];
      StraddleStep(rest, room - |out|);
      out, pos, k, elements := out + more, next, k + 1, elements + whole;
    }
    if |out| > room {
      FirstBeyond(elements, room, width);
    }
    if |out| < room {
      assert source[pos..] == [];
      NoBytesNoTokens(ts[k..], width);
      NothingStraddles(ts[k..], room - |out|);
    }
  }

  /** The first multiple beyond the room. */
  lemma FirstBeyond(n: nat, room: nat, width: nat)
    requires 0 < width && room < n * width <= room + width
    ensures n == room / width + 1
  {
    var q, m: int := room / width, n - 1;
    assert q * width <= room < q * width + width;
    assert m * width == n * width - width;
    if q < m {
      NoSmaller(q + 1, m, width);
    } else if m < q {
      NoSmaller(m + 1, q, width);
    }
  }

  lemma NoSmaller(a: int, b: int, width: nat)
    requires a <= b
    ensures a * width <= b * width && a * width == (a - 1) * width + width
  {
  }

  lemma StraddleStep(ts: seq<Token>, room: nat)
    requires ts != [] && room > 0
    ensures
      var size := |Joined(Meaning(ts[0]))|;
      && RunStraddles(ts, room) == (if size <= room then RunStraddles(ts[1..], room - size) else ts[0].Run?)
      && !RunStraddles(ts[1..], 0)
  {
    hide Joined, Meaning;
  }

  lemma NothingStraddles(ts: seq<Token>, room: nat)
    requires ts == [] || room == 0
    ensures !RunStraddles(ts, room)
  {
  }

  lemma NoBytesNoTokens(ts: seq<Token>, width: nat)
    requires TokensOk(ts, width)
    ensures Bytes(ts, width) == [] <==> ts == []
    ensures ts == [] ==> Plain(ts) == []
  {
  }

  lemma {:induction false} PlainStep(ts: seq<Token>, width: nat)
    requires ts != [] && TokensOk(ts, width)
    ensures Plain(ts) == Joined(Meaning(ts[0])) + Plain(ts[1..]) && TokensOk(ts[1..], width)
  {
    JoinedConcat(Meaning(ts[0]), Expand(ts[1..]));
  }

  /** The whole way: what a large enough buffer got, expanded into exactly the room of the source, is the source. */
  method ThereAndBack(e: seq<Element>, width: nat, room: nat) returns (out: seq<Byte>)
    requires 0 < width && Whole(e, width)
    requires |Packed(e, width)| <= room
    ensures !LosesLast(e, 0) ==> out == Joined(e)
    ensures LosesLast(e, 0) ==> out != Joined(e) && |out| == |Joined(e)|
  {
    hide Tokens, LosesLast, Joined, Bytes, Expand, TokensOk, Plain;
    var packed, size := Compress(e, width, Buffer(room));
    TokensMean(e, 0, width);
    out := Decompress(packed, width, |e| * width, Tokens(e, 0));
    PlainKept(e, width);
  }

  lemma {:induction false} PlainKept(e: seq<Element>, width: nat)
    requires 0 < width && Whole(e, width)
    ensures |Plain(Tokens(e, 0))| == |e| * width == |Joined(e)|
    ensures Plain(Tokens(e, 0)) == Joined(e) <==> !LosesLast(e, 0)
  {
    hide LosesLast, Joined, Tokens, Expand;
    TokensMean(e, 0, width);
    RoundTrip(e, width);
    JoinedLength(e, width);
    var kept := Kept(e, 0);
    KeptIsWhole(e, width);
    JoinedLength(kept, width);
    if Joined(kept) == Joined(e) {
      JoinedInjective(kept, e, width);
    }
  }

  lemma {:induction false} KeptIsWhole(e: seq<Element>, width: nat)
    requires Whole(e, width)
    ensures Whole(Kept(e, 0), width) && |Kept(e, 0)| == |e|
  {
    hide LosesLast;
    if LosesLast(e, 0) {
      LosingNeedsTwo(e, 0);
    }
  }

  lemma {:induction false} JoinedInjective(a: seq<Element>, b: seq<Element>, width: nat)
    requires Whole(a, width) && Whole(b, width) && |a| == |b| && Joined(a) == Joined(b)
    ensures a == b
  {
    if a != [] {
      assert a[0] == Joined(a)[..width] == b[0];
      assert Joined(a[1..]) == Joined(a)[width..] == Joined(b[1..]);
      JoinedInjective(a[1..], b[1..], width);
      assert a == [a[0]] + a[1..] && b == [b[0]] + b[1..];
    }
  }

  // ---------------------------------------------------------------- examples

  /** Equal elements take a count and the element for every 128 of them. */
  lemma {:induction false} EqualElements(x: Element, n: nat, width: nat)
    requires |x| == width && n >= 2
    ensures Whole(Copies(x, n), width) && |Packed(Copies(x, n), width)| == (n + 127) / 128 * (width + 1)
  {
    var e := Copies(x, n);
    assert RunStarts(e, 0) && RunEnd(e, 0, 1) == n;
    assert Stop(e, 0) == n;
    TokensMean(e, 0, width);
    hide Tokens, Stop, RunTokens, Bytes, TokensOk;
    TokensAtRun(e, 0);
    AtTheEnd(e);
    RunBytes(x, n, width);
    assert RunTokens(x, n) + [] == RunTokens(x, n);
  }

  lemma {:induction false} RunBytes(x: Element, n: nat, width: nat)
    requires |x| == width
    ensures TokensOk(RunTokens(x, n), width) && |Bytes(RunTokens(x, n), width)| == (n + 127) / 128 * (width + 1)
  {
    RunTokensMean(x, n, width);
    hide Bytes, RunTokens, TokensOk;
    if n > 128 {
      RunStep(x, n, width);
      RunBytes(x, n - 128, width);
      assert (n + 127) / 128 == (n - 128 + 127) / 128 + 1;
      var q := (n - 1) / 128;
      assert (q + 1) * (width + 1) == q * (width + 1) + (width + 1);
    } else if n > 0 {
      RunStep(x, n, width);
      NoRun(x, width);
      assert (n + 127) / 128 == 1;
    } else {
      NoRun(x, width);
    }
  }

  /** Three equal bytes, two others, and two equal ones, which the coder takes for literals at the end. */
  method Example() returns (packed: seq<Byte>, plain: seq<Byte>)
    ensures packed == [2, 1, 252, 2, 3, 4, 4] && plain == [1, 1, 1, 2, 3, 4, 4]
  {
    var e: seq<Element> := [[1], [1], [1], [2], [3], [4], [4]];
    ghost var ts := [Run(3, [1]), Literals([[2], [3], [4], [4]])];
    ExampleTokens(e, ts);
    ExampleBytes(ts);
    hide Tokens, Bytes, Expand, Meaning, Joined, RunStraddles, Until, TokensOk;
    var size;
    packed, size := Compress(e, 1, Buffer(100));
    plain := Decompress(packed, 1, 100, ts);
  }

  lemma {:induction false} ExampleTokens(e: seq<Element>, ts: seq<Token>)
    requires e == [[1], [1], [1], [2], [3], [4], [4]] && ts == [Run(3, [1]), Literals([[2], [3], [4], [4]])]
    ensures Whole(e, 1) && Tokens(e, 0) == ts
  {
    assert e[0] == [1] && e[1] == [1] && e[2] == [1] && e[3] == [2] && e[4] == [3] && e[5] == [4] && e[6] == [4];
    assert e[2] != e[3] && e[3] != e[4] && e[4] != e[5];
    assert RunEnd(e, 0, 3) == 3 && RunEnd(e, 0, 2) == 3 && RunEnd(e, 0, 1) == 3;
    assert LiteralStop(e, 5) == 7 && LiteralStop(e, 4) == 7 && LiteralStop(e, 3) == 7;
    assert Stop(e, 0) == 3 && Stop(e, 3) == 7;
    hide Stop, RunEnd, LiteralStop;
    assert e[3..7] == [[2], [3], [4], [4]];
    assert Tokens(e, 7) == [];
    assert Tokens(e, 3) == LiteralTokens(e[3..7]) + [] == [Literals([[2], [3], [4], [4]])];
    assert Tokens(e, 0) == RunTokens([1], 3) + Tokens(e, 3);
  }

  lemma {:induction false} ExampleBytes(ts: seq<Token>)
    requires ts == [Run(3, [1]), Literals([[2], [3], [4], [4]])]
    ensures TokensOk(ts, 1) && Bytes(ts, 1) == [2, 1, 252, 2, 3, 4, 4] && Plain(ts) == [1, 1, 1, 2, 3, 4, 4]
  {
    var l: seq<Element> := [[2], [3], [4], [4]];
    assert l[1..] == [[3], [4], [4]] && l[1..][1..] == [[4], [4]] && l[1..][1..][1..] == [[4]] && l[1..][1..][1..][1..] == [];
    assert Joined([[4]]) == [4] + [] && Joined([[4], [4]]) == [4] + [4] && Joined([[3], [4], [4]]) == [3] + [4, 4];
    assert Joined(l) == [2] + [3, 4, 4];
    assert ts[1..] == [Literals(l)] && ts[1..][1..] == [];
    assert Bytes(ts[1..], 1) == [252] + [2, 3, 4, 4] + [];
    assert Bytes(ts, 1) == [2] + [1] + [252, 2, 3, 4, 4];
    var one: Element := [1];
    var r: seq<Element>, none: seq<Element> := Copies(one, 3), [];
    assert r == [one, one, one] && r[1..] == [one, one] && r[1..][1..] == [one] && r[1..][1..][1..] == none;
    assert Joined([[1]]) == [1] + [] && Joined([[1], [1]]) == [1] + [1] && Joined(r) == [1] + [1, 1];
    PlainStep(ts, 1);
    PlainStep(ts[1..], 1);
    assert Plain([]) == [];
    assert Plain(ts[1..]) == [2, 3, 4, 4] + [];
  }
}
