/** The compressor's LZ code buffer as an object: recording literals and matches, counting their symbols,
    and finishing the buffer for the block writer. */
module LzBuffers {
  import opened Powers
  import opened Bits
  import opened LzCodes
  import opened LzCodeBuffer
  import opened DeflateSymbols

  function LitSymOf(c: Code): (s: nat)
    requires Expressible(c)
    ensures s < 286 && s != 256
  {
    match c
    case Literal(b) => b
    case Match(len, _) => LenSym(len - MIN_MATCH_LEN)
  }

  /** How many codes use the literal/length symbol `s`. */
  ghost function LitOccurs(cs: seq<Code>, s: nat): (n: nat)
    requires AllExpressible(cs)
    ensures n <= |cs|
  {
    if cs == [] then 0 else LitOccurs(cs[..|cs| - 1], s) + (if LitSymOf(cs[|cs| - 1]) == s then 1 else 0)
  }

  /** How many matches use the distance symbol `s`. */
  ghost function DistOccurs(cs: seq<Code>, s: nat): (n: nat)
    requires AllExpressible(cs)
    ensures n <= |cs|
  {
    if cs == [] then 0
    else
      var c := cs[|cs| - 1];
      DistOccurs(cs[..|cs| - 1], s) + (if c.Match? && DistSym(c.dist - 1) == s then 1 else 0)
  }

  lemma {:induction false} OccursOne(cs: seq<Code>, c: Code)
    requires AllExpressible(cs) && Expressible(c)
    ensures forall s: nat :: LitOccurs(cs + [c], s) == LitOccurs(cs, s) + (if LitSymOf(c) == s then 1 else 0)
    ensures forall s: nat :: DistOccurs(cs + [c], s)
                          == DistOccurs(cs, s) + (if c.Match? && DistSym(c.dist - 1) == s then 1 else 0)
  {
    assert (cs + [c])[..|cs|] == cs;
  }

  ghost predicate Counted(lits: seq<nat>, dists: seq<nat>, cs: seq<Code>)
    requires AllExpressible(cs)
  {
    && |lits| == 288 && |dists| == 32
    && (forall s: nat | s < 288 :: lits[s] == LitOccurs(cs, s))
    && (forall s: nat | s < 32 :: dists[s] == DistOccurs(cs, s))
  }

  lemma {:induction false} CountedLiteral(lits: seq<nat>, dists: seq<nat>, cs: seq<Code>, b: Byte)
    requires AllExpressible(cs) && Counted(lits, dists, cs)
    ensures Counted(lits[b := lits[b] + 1], dists, cs + [Literal(b)])
  {
    OccursOne(cs, Literal(b));
  }

  lemma {:induction false} CountedMatch(lits: seq<nat>, dists: seq<nat>, cs: seq<Code>, len: nat, dist: nat)
    requires AllExpressible(cs) && Counted(lits, dists, cs) && Expressible(Match(len, dist))
    ensures var s, d := LenSym(len - MIN_MATCH_LEN), DistSym(dist - 1);
            Counted(lits[s := lits[s] + 1], dists[d := dists[d] + 1], cs + [Match(len, dist)])
  {
    OccursOne(cs, Match(len, dist));
  }

  /** What the eighth code and the others leave behind. */
  lemma {:induction false} RecordCode(buf: seq<int>, flagsPos: nat, left: nat, cs: seq<Code>, full: nat, c: Code, stale: Byte)
    requires Recording(buf, flagsPos, left, cs, full) && Expressible(c)
    ensures flagsPos < |buf| && 0 <= buf[flagsPos] < 256
    ensures left > 1 ==> Recording(Recorded(buf, flagsPos, c), flagsPos, left - 1, cs + [c], full)
    ensures left == 1 ==> var r := Recorded(buf, flagsPos, c); Recording(r + [stale as int], |r|, 8, cs + [c], full + 8)
    ensures 1 <= left <= 8
  {
    if left > 1 {
      RecordInside(buf, flagsPos, left, cs, full, c);
    } else {
      RecordEighth(buf, flagsPos, cs, full, c, stale);
    }
  }

  lemma {:induction false} EmptyRecording(b: Byte)
    ensures Recording([b as int], 0, 8, [], 0)
  {
    EmptyGroup(b);
  }

  /** Every code takes at least one byte. */
  lemma {:induction false} CodesFit(buf: seq<int>, flagsPos: nat, left: nat, cs: seq<Code>, full: nat)
    requires Recording(buf, flagsPos, left, cs, full)
    ensures |cs| < |buf| && AllExpressible(cs)
  {
    SerializedAtLeast(cs[..full]);
  }

  lemma {:induction false} ItemsConcat(cs: seq<Code>, ds: seq<Code>)
    requires AllExpressible(cs) && AllExpressible(ds)
    ensures AllExpressible(cs + ds) && |Items(cs + ds)| == |Items(cs)| + |Items(ds)|
  {
    if ds == [] {
      assert cs + ds == cs;
    } else {
      ItemsConcat(cs, ds[..|ds| - 1]);
      assert cs + ds == cs + ds[..|ds| - 1] + [ds[|ds| - 1]];
      ItemsOne(cs + ds[..|ds| - 1], ds[|ds| - 1]);
    }
  }

  /** Every code takes an eighth of a flag byte beside its item. */
  lemma {:induction false} ItemsAndFlags(cs: seq<Code>)
    requires AllExpressible(cs)
    ensures 8 * |Serialized(cs)| >= 8 * |Items(cs)| + |cs|
    decreases |cs|
  {
    if cs != [] {
      var full := LastGroup(|cs|);
      ItemsAndFlags(cs[..full]);
      ItemsConcat(cs[..full], cs[full..]);
      assert cs == cs[..full] + cs[full..];
    }
  }

  /** Eight codes take at least nine bytes. */
  lemma {:induction false} SerializedAtLeast(cs: seq<Code>)
    requires AllExpressible(cs)
    ensures 8 * |Serialized(cs)| >= 9 * |cs|
  {
    ItemsAndFlags(cs);
  }

  /** No item is longer than what it stands for. */
  lemma {:induction false} ItemsSpan(cs: seq<Code>)
    requires AllExpressible(cs)
    ensures |cs| <= |Items(cs)| <= Span(cs)
  {
    if cs != [] {
      ItemsSpan(cs[..|cs| - 1]);
    }
  }

  lemma {:induction false} ItemsAndFlagsExactly(cs: seq<Code>)
    requires AllExpressible(cs) && |cs| % 8 == 0
    ensures 8 * |Serialized(cs)| == 8 * |Items(cs)| + |cs|
    decreases |cs|
  {
    hide Items, Flags;
    if cs != [] {
      var full := LastGroup(|cs|);
      ItemsAndFlagsExactly(cs[..full]);
      ItemsConcat(cs[..full], cs[full..]);
      assert cs == cs[..full] + cs[full..];
    }
  }

  class LzBuffer {
    const codeBuf: array<Byte>
    const litCounts: array<nat>
    const distCounts: array<nat>
    var end: nat
    var flagsPos: nat
    var numFlagsLeft: nat
    var totalBytes: nat
    ghost var codes: seq<Code>
    ghost var full: nat

    ghost predicate Shape() {
      codeBuf.Length == CODE_BUF_SIZE && litCounts.Length == 288 && distCounts.Length == 32 && litCounts != distCounts
    }

    ghost predicate Valid()
      reads this, codeBuf, litCounts, distCounts
    {
      && Shape() && flagsPos < end <= CODE_BUF_SIZE
      && Recording(codeBuf[..end], flagsPos, numFlagsLeft, codes, full)
      && totalBytes == Span(codes)
      && Counted(litCounts[..], distCounts[..], codes)
    }

    constructor ()
      ensures Valid() && codes == [] && fresh(codeBuf) && fresh(litCounts) && fresh(distCounts)
      ensures end == 1
    {
      codeBuf := new Byte[CODE_BUF_SIZE];
      litCounts := new nat[288](_ => 0);
      distCounts := new nat[32](_ => 0);
      end, flagsPos, numFlagsLeft, totalBytes := 1, 0, 8, 0;
      codes, full := [], 0;
      new;
      EmptyRecording(codeBuf[0]);
      assert codeBuf[..1] == [codeBuf[0]];
    }

    /** Moves the flag word on after a code, and opens a new group after every eighth code. */
    method AdvanceFlags(isMatch: bool)
      requires Shape() && flagsPos < end < CODE_BUF_SIZE && 1 <= numFlagsLeft <= 8
      modifies codeBuf, `end, `flagsPos, `numFlagsLeft
      ensures flagsPos < end <= CODE_BUF_SIZE && end <= old(end) + 1
      ensures forall i | 0 <= i < codeBuf.Length && i != old(flagsPos) :: codeBuf[i] == old(codeBuf[i])
      ensures var r := old(codeBuf[..end])[old(flagsPos) := ShiftFlag(old(codeBuf[flagsPos]), isMatch)];
              if old(numFlagsLeft) == 1
              then numFlagsLeft == 8 && flagsPos == old(end) && end == old(end) + 1
                   && codeBuf[..end] == r + [codeBuf[flagsPos]]
              else numFlagsLeft == old(numFlagsLeft) - 1 && flagsPos == old(flagsPos) && end == old(end)
                   && codeBuf[..end] == r
    {
      codeBuf[flagsPos] := ShiftFlag(codeBuf[flagsPos], isMatch);
      numFlagsLeft := numFlagsLeft - 1;
      if numFlagsLeft == 0 {
        numFlagsLeft := 8;
        flagsPos := end;
        end := end + 1;
      }
    }

    /** The bytes of `c` are in place after `buf`: its flag follows. */
    method FlagItem(isMatch: bool, ghost buf: seq<int>, ghost c: Code)
      requires Shape() && Expressible(c) && isMatch == c.Match?
      requires Recording(buf, flagsPos, numFlagsLeft, codes, full)
      requires end == |buf| + |Item(c)| < CODE_BUF_SIZE && codeBuf[..end] == buf + Item(c)
      modifies codeBuf, `end, `flagsPos, `numFlagsLeft, `codes, `full
      ensures codes == old(codes) + [c] && flagsPos < end <= old(end) + 1
      ensures Recording(codeBuf[..end], flagsPos, numFlagsLeft, codes, full)
    {
      hide Recording, Item;
      RecordCode(buf, flagsPos, numFlagsLeft, codes, full, c, codeBuf[end]);
      ghost var p := flagsPos;
      assert codeBuf[..end][p] == buf[p];
      UpdateConcat(buf, p, ShiftFlag(buf[p], isMatch), Item(c));
      AdvanceFlags(isMatch);
      full := if numFlagsLeft == 8 then full + 8 else full;
      codes := codes + [c];
    }

    method CountLiteral(lit: Byte)
      requires Shape() && AllExpressible(codes) && Counted(litCounts[..], distCounts[..], codes)
      modifies litCounts
      ensures Counted(litCounts[..], distCounts[..], codes + [Literal(lit)])
    {
      ghost var lits: seq<nat> := litCounts[..];
      CountedLiteral(lits, distCounts[..], codes, lit);
      hide Counted;
      litCounts[lit] := litCounts[lit] + 1;
      assert litCounts[..] == lits[lit := lits[lit] + 1];
    }

    method CountMatch(len: nat, dist: nat)
      requires Shape() && AllExpressible(codes) && Counted(litCounts[..], distCounts[..], codes)
      requires Expressible(Match(len, dist))
      modifies litCounts, distCounts
      ensures Counted(litCounts[..], distCounts[..], codes + [Match(len, dist)])
    {
      ghost var lits: seq<nat>, dists: seq<nat> := litCounts[..], distCounts[..];
      CountedMatch(lits, dists, codes, len, dist);
      hide Counted;
      var d, s := DistSym(dist - 1), LenSym(len - MIN_MATCH_LEN);
      distCounts[d] := distCounts[d] + 1;
      litCounts[s] := litCounts[s] + 1;
      assert litCounts[..] == lits[s := lits[s] + 1];
      assert distCounts[..] == dists[d := dists[d] + 1];
    }

    method RecordLiteral(lit: Byte)
      requires Valid() && end + 2 <= CODE_BUF_SIZE
      modifies this, codeBuf, litCounts
      ensures Valid() && codes == old(codes) + [Literal(lit)] && end <= old(end) + 2
    {
      hide Recording, Counted, Span, Serialized, Flags;
      ghost var buf: seq<int> := codeBuf[..end];
      CodesFit(buf, flagsPos, numFlagsLeft, codes, full);
      SpanOne(codes, Literal(lit));
      CountLiteral(lit);
      totalBytes := totalBytes + 1;
      codeBuf[end] := lit;
      end := end + 1;
      assert codeBuf[..end] == buf + [lit as int];
      FlagItem(false, buf, Literal(lit));
    }

    method RecordMatch(matchLen: nat, matchDist: nat)
      requires Valid() && end + 4 <= CODE_BUF_SIZE && Expressible(Match(matchLen, matchDist))
      modifies this, codeBuf, litCounts, distCounts
      ensures Valid() && codes == old(codes) + [Match(matchLen, matchDist)] && end <= old(end) + 4
    {
      hide Recording, Counted, Span, Serialized, Flags;
      ghost var buf: seq<int>, c := codeBuf[..end], Match(matchLen, matchDist);
      CodesFit(buf, flagsPos, numFlagsLeft, codes, full);
      SpanOne(codes, c);
      CountMatch(matchLen, matchDist);
      totalBytes := totalBytes + matchLen;
      var dist := matchDist - 1;
      codeBuf[end] := matchLen - MIN_MATCH_LEN;
      codeBuf[end + 1] := dist % 256;
      codeBuf[end + 2] := dist / 256;
      end := end + 3;
      assert codeBuf[..end] == buf + [matchLen - MIN_MATCH_LEN, dist % 256, dist / 256];
      FlagItem(true, buf, c);
    }

    /** Brings the buffer into its final form: the flags of an unfinished group move down to bit 0, and the
        flag byte of an empty group is dropped. */
    method Finish()
      requires Valid()
      modifies codeBuf, `end
      ensures Shape() && end <= old(end) && AllExpressible(codes) && codeBuf[..end] == Serialized(codes)
    {
      ghost var buf: seq<int> := codeBuf[..end];
      FinishRecording(buf, flagsPos, numFlagsLeft, codes, full);
      ShiftDownFits(codeBuf[flagsPos], numFlagsLeft);
      codeBuf[flagsPos] := codeBuf[flagsPos] / Pow2(numFlagsLeft);
      if numFlagsLeft == 8 {
        end := end - 1;
        assert codeBuf[..end] == buf[..end];
      } else {
        assert codeBuf[..end] == buf[flagsPos := buf[flagsPos] / Pow2(numFlagsLeft)];
      }
    }

    /** Starts an empty buffer for the next block. */
    method Reset()
      requires Shape()
      modifies this, codeBuf, litCounts, distCounts
      ensures Valid() && codes == [] && end == 1 && totalBytes == 0
    {
      forall i | 0 <= i < litCounts.Length {
        litCounts[i] := 0;
      }
      forall i | 0 <= i < distCounts.Length {
        distCounts[i] := 0;
      }
      end, flagsPos, numFlagsLeft, totalBytes := 1, 0, 8, 0;
      codes, full := [], 0;
      EmptyRecording(codeBuf[0]);
      assert codeBuf[..1] == [codeBuf[0]];
    }
  }

  lemma {:induction false} UpdateConcat(buf: seq<int>, p: nat, v: int, item: seq<int>)
    requires p < |buf|
    ensures (buf + item)[p := v] == buf[p := v] + item
  {
  }

  lemma {:induction false} ShiftDownFits(f: Byte, k: nat)
    ensures 0 <= f / Pow2(k) < 256
  {
    var q, r := Euclid(f, Pow2(k));
    assert q * Pow2(k) == q * (Pow2(k) - 1) + q;
  }
}
