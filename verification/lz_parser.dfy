/** The compressor's main loop: filling the dictionary, searching the hash chains, and lazy parsing. */
module LzParser {
  import opened LzCodes
  import opened LzCodeBuffer
  import opened LzBuffers
  import opened LzWindow
  import opened LzHash
  import opened LzChains
  import opened LzParse
  import opened DeflateBlock
  import opened DeflateStream

  datatype Probe = Exhausted | Missed | Hit

  /** The codes, applied after the first `start` bytes, give the bytes before `at`. */
  ghost predicate Reach(history: seq<Byte>, start: int, codes: seq<Code>, at: int) {
    && 0 <= start <= at <= |history|
    && Decodable(history[..start], codes) && Expand(history[..start], codes) == history[..at]
  }

  lemma {:induction false} ReachLiteral(history: seq<Byte>, start: int, codes: seq<Code>, at: int)
    requires Reach(history, start, codes, at) && at < |history|
    ensures Reach(history, start, codes + [Literal(history[at])], at + 1)
  {
    ExpandOne(history[..start], codes, Literal(history[at]));
    assert history[..at] + [history[at]] == history[..at + 1];
  }

  lemma {:induction false} ReachMatch(history: seq<Byte>, start: int, codes: seq<Code>, at: int, len: nat, dist: nat)
    requires Reach(history, start, codes, at) && Repeats(history, at, len, dist) && Expressible(Match(len, dist))
    ensures Reach(history, start, codes + [Match(len, dist)], at + len)
  {
    ExpandOne(history[..start], codes, Match(len, dist));
    CopyRepeat(history, at, len, dist);
  }

  /** More input does not disturb what was coded. */
  lemma {:induction false} ReachGrows(history: seq<Byte>, more: seq<Byte>, start: int, codes: seq<Code>, at: int)
    requires Reach(history, start, codes, at)
    ensures Reach(history + more, start, codes, at)
  {
    assert (history + more)[..start] == history[..start];
    assert (history + more)[..at] == history[..at];
  }

  /** An empty block reaches no further than its start. */
  lemma {:induction false} ReachNothing(history: seq<Byte>, start: int)
    requires 0 <= start <= |history|
    ensures Reach(history, start, [], start)
  {
  }

  lemma {:induction false} ReachBounds(history: seq<Byte>, start: int, codes: seq<Code>, at: int)
    requires Reach(history, start, codes, at)
    ensures 0 <= start <= at <= |history|
  {
  }

  /** Whether the codes or the bytes are written, the block takes the output from `start` to `at`. */
  lemma {:induction false} CloseBlock(history: seq<Byte>, blocks: seq<Block>, start: int, codes: seq<Code>, at: int, block: Block)
    requires Reach(history, start, codes, at)
    requires DecodableBlocks(blocks) && ExpandBlocks(blocks) == history[..start]
    requires block == Coded(codes) || block == Stored(history[start..at])
    ensures DecodableBlocks(blocks + [block]) && ExpandBlocks(blocks + [block]) == history[..at]
    ensures Reach(history, at, [], at)
  {
    hide Decodable, Expand;
    OneMoreBlock(blocks, block);
    ReachNothing(history, at);
    assert history[..start] + history[start..at] == history[..at];
  }

  /** The codes span exactly the bytes they reach over. */
  lemma {:induction false} ReachSpan(history: seq<Byte>, start: int, codes: seq<Code>, at: int)
    requires Reach(history, start, codes, at)
    ensures Span(codes) == at - start
  {
    SpanIsLength(history[..start], codes);
  }

  /** The blocks from number `first` on and the codes, expanded by themselves, give the bytes from `base` to `at`. */
  ghost predicate CodedFrom(history: seq<Byte>, blocks: seq<Block>, base: int, first: int, start: int, codes: seq<Code>, at: int) {
    && 0 <= base <= start <= |history| && 0 <= first <= |blocks|
    && DecodableBlocks(blocks[first..]) && ExpandBlocks(blocks[first..]) == history[base..start]
    && Reach(history[base..], start - base, codes, at - base)
  }

  lemma {:induction false} CodedLiteral(history: seq<Byte>, blocks: seq<Block>, base: int, first: int, start: int, codes: seq<Code>, at: int)
    requires CodedFrom(history, blocks, base, first, start, codes, at) && at < |history|
    ensures CodedFrom(history, blocks, base, first, start, codes + [Literal(history[at])], at + 1)
  {
    hide Reach, DecodableBlocks, ExpandBlocks;
    ReachBounds(history[base..], start - base, codes, at - base);
    ReachLiteral(history[base..], start - base, codes, at - base);
  }

  lemma {:induction false} CodedMatch(history: seq<Byte>, blocks: seq<Block>, base: int, first: int, start: int, codes: seq<Code>,
                                      at: int, len: nat, dist: nat)
    requires CodedFrom(history, blocks, base, first, start, codes, at) && 0 <= at && dist <= at - base
    requires Repeats(history, at, len, dist) && Expressible(Match(len, dist))
    ensures CodedFrom(history, blocks, base, first, start, codes + [Match(len, dist)], at + len)
  {
    ReachBounds(history[base..], start - base, codes, at - base);
    assert Repeats(history[base..], at - base, len, dist);
    hide Reach, DecodableBlocks, ExpandBlocks, Repeats;
    ReachMatch(history[base..], start - base, codes, at - base, len, dist);
  }

  lemma {:induction false} CodedGrows(history: seq<Byte>, more: seq<Byte>, blocks: seq<Block>, base: int, first: int, start: int,
                                      codes: seq<Code>, at: int)
    requires CodedFrom(history, blocks, base, first, start, codes, at)
    ensures CodedFrom(history + more, blocks, base, first, start, codes, at)
  {
    hide Reach, DecodableBlocks, ExpandBlocks;
    assert (history + more)[base..] == history[base..] + more;
    assert (history + more)[base..start] == history[base..start];
    ReachGrows(history[base..], more, start - base, codes, at - base);
  }

  lemma {:induction false} CodedClose(history: seq<Byte>, blocks: seq<Block>, base: int, first: int, start: int, codes: seq<Code>,
                                      at: int, block: Block)
    requires CodedFrom(history, blocks, base, first, start, codes, at)
    requires 0 <= start <= at <= |history| && (block == Coded(codes) || block == Stored(history[start..at]))
    ensures CodedFrom(history, blocks + [block], base, first, at, [], at)
  {
    hide Reach, DecodableBlocks, ExpandBlocks;
    var h := history[base..];
    ReachBounds(h, start - base, codes, at - base);
    assert h[..start - base] == history[base..start] && h[start - base..at - base] == history[start..at];
    CloseBlock(h, blocks[first..], start - base, codes, at - base, block);
    assert (blocks + [block])[first..] == blocks[first..] + [block];
    assert h[..at - base] == history[base..at];
  }

  lemma {:induction false} CodedEmpty(history: seq<Byte>, blocks: seq<Block>, base: int, first: int, start: int, codes: seq<Code>, at: int)
    requires CodedFrom(history, blocks, base, first, start, codes, at)
    ensures CodedFrom(history, blocks + [Stored([])], base, first, start, codes, at)
  {
    hide Reach, DecodableBlocks, ExpandBlocks;
    OneMoreBlock(blocks[first..], Stored([]));
    assert (blocks + [Stored([])])[first..] == blocks[first..] + [Stored([])];
  }

  lemma {:induction false} CodedNothing(history: seq<Byte>, blocks: seq<Block>, at: int)
    requires 0 <= at <= |history|
    ensures CodedFrom(history, blocks, at, |blocks|, at, [], at)
  {
    hide Reach;
    assert blocks[|blocks|..] == [] && history[at..at] == [];
    ReachNothing(history[at..], 0);
  }

  class Compressor {
    const options: Options
    const maxProbes0: nat
    const maxProbes1: nat
    const dict: array<Byte>
    const next: array<Word16>
    const hash: array<Word16>
    const lz: LzBuffer
    var lookaheadPos: nat
    var lookaheadSize: nat
    var dictSize: nat
    var savedMatchLen: nat
    var savedMatchDist: nat
    var savedLit: Byte
    var blockStart: nat
    ghost var history: seq<Byte>
    ghost var blocks: seq<Block>
    /** Where the last full flush was: the position, and the number of blocks before it. */
    ghost var since: nat
    ghost var sinceBlock: nat
    /** The decisions that went into each block, and those since. */
    ghost var closed: seq<seq<Turn>>
    ghost var open: seq<Turn>

    ghost predicate Shape() {
      && dict.Length == DICT_LENGTH && next.Length == LZ_DICT_SIZE && hash.Length == HASH_SIZE
      && next != hash && dict != lz.codeBuf && maxProbes0 >= 1 && maxProbes1 >= 1
      && lz.Shape()
    }

    /** The dictionary holds the last `dictSize` bytes and the lookahead. */
    ghost predicate WindowOk()
      reads `history, `lookaheadPos, `lookaheadSize, `dictSize, dict
    {
      && |history| == lookaheadPos + lookaheadSize && lookaheadSize <= MAX_MATCH_LEN
      && dictSize <= lookaheadPos && dictSize + lookaheadSize <= LZ_DICT_SIZE
      && InWindow(dict[..], history, lookaheadPos - dictSize)
    }

    /** The positions in the chains end where fewer than three bytes are known. */
    ghost function Inserted(): nat
      reads `history, `since
    {
      if |history| < since + 2 then since else |history| - 2
    }

    /** All positions since the last full flush are in the chains, and the dictionary does not reach before it. */
    ghost predicate ChainsOk()
      reads `history, `lookaheadPos, `lookaheadSize, `dictSize, `since, next, hash
    {
      && since <= lookaheadPos <= |history| && dictSize == WindowSize(lookaheadPos, since, lookaheadSize)
      && Chained(next[..], hash[..], history, since, Inserted())
    }

    /** The match that waits, if any. */
    ghost function Waiting(): Saved
      reads `savedMatchLen, `savedMatchDist, `savedLit
    {
      Saved(savedMatchLen, savedMatchDist, savedLit)
    }

    /** The decisions lead to `at`, and those since the last block recorded the codes. */
    ghost predicate Traced(at: int)
      reads `history, `savedMatchLen, `savedMatchDist, `savedLit, `closed, `open, `blocks, lz`codes
    {
      && Parse(options, maxProbes0, maxProbes1, history, Turns(), at, Waiting())
      && |closed| == |blocks| && lz.codes == AllRecorded(options, open)
      && (open != [] ==> at <= open[|open| - 1].at + open[|open| - 1].look)
    }

    /** All decisions so far. */
    ghost function Turns(): seq<Turn>
      reads `closed, `open
    {
      AllTurns(closed) + open
    }

    /** What was coded since the last full flush is coded by itself. */
    ghost predicate SelfContained(at: int)
      reads `history, `blockStart, `blocks, `since, `sinceBlock, lz`codes
    {
      CodedFrom(history, blocks, since, sinceBlock, blockStart, lz.codes, at)
    }

    /** How many bytes the recorded codes stand for: a saved match leaves the byte before the lookahead open. */
    ghost function CodedTo(): int
      reads `lookaheadPos, `savedMatchLen
    {
      lookaheadPos - (if savedMatchLen > 0 then 1 else 0)
    }

    /** Expanding all blocks and the recorded codes gives exactly the bytes before `at`. */
    ghost predicate CodesReach(at: int)
      reads `history, `blockStart, `blocks, lz`codes
    {
      && blockStart <= |history| && DecodableBlocks(blocks) && ExpandBlocks(blocks) == history[..blockStart]
      && Reach(history, blockStart, lz.codes, at)
    }

    /** A saved match is a true repeat that starts at the byte before the lookahead. */
    ghost predicate SavedAt(at: int)
      reads `history, `savedMatchLen, `savedMatchDist, `savedLit, `since
    {
      savedMatchLen > 0 ==>
        && at >= 1 && MIN_MATCH_LEN <= savedMatchLen < 128 && savedMatchDist <= LZ_DICT_SIZE
        && savedMatchDist <= at - 1 - since
        && Repeats(history, at - 1, savedMatchLen, savedMatchDist)
        && savedLit == history[at - 1]
    }

    ghost predicate Steady()
      reads this, dict, next, hash, lz, lz.codeBuf, lz.litCounts, lz.distCounts
    {
      && Shape() && lz.Valid() && WindowOk() && ChainsOk() && SavedAt(lookaheadPos)
      && CodesReach(CodedTo()) && SelfContained(CodedTo()) && Traced(lookaheadPos)
    }

    /** Between two decisions there is room for two more codes. */
    ghost predicate Valid()
      reads this, dict, next, hash, lz, lz.codeBuf, lz.litCounts, lz.distCounts
    {
      Steady() && lz.end <= CODE_BUF_SIZE - 8
    }

    /** An empty compressor. The bytes of the ring and of the chains do not matter. */
    constructor (options: Options, probes: nat)
      requires probes < 4096
      ensures Valid() && history == [] && blocks == [] && this.options == options && since == 0 && sinceBlock == 0
      ensures closed == [] && open == []
      ensures maxProbes0 == 1 + (probes + 2) / 3 && maxProbes1 == 1 + (probes / 4 + 2) / 3 && lz.end == 1 && lz.totalBytes == 0
      ensures fresh(dict) && fresh(next) && fresh(hash) && fresh(lz) && fresh(lz.codeBuf) && fresh(lz.litCounts) && fresh(lz.distCounts)
    {
      this.options := options;
      maxProbes0 := 1 + (probes + 2) / 3;
      maxProbes1 := 1 + (probes / 4 + 2) / 3;
      dict := new Byte[DICT_LENGTH](_ => 0);
      next := new Word16[LZ_DICT_SIZE](_ => 0);
      hash := new Word16[HASH_SIZE](_ => 0);
      lz := new LzBuffer();
      lookaheadPos, lookaheadSize, dictSize, blockStart := 0, 0, 0, 0;
      savedMatchLen, savedMatchDist, savedLit := 0, 0, 0;
      history, blocks, since, sinceBlock, closed, open := [], [], 0, 0, [], [];
      new;
      ReachNothing(history, 0);
      NoChains(next[..], hash[..], history, 0);
      CodedNothing(history, blocks, 0);
    }

    /** What every step keeps: the block's first byte and its byte count meet at the coded position, and a
        saved match ends inside the lookahead. */
    lemma {:induction false} Accounting()
      requires Steady()
      ensures blockStart + lz.totalBytes == CodedTo()
      ensures savedMatchLen <= lookaheadSize + 1
      ensures ExpandBlock(ExpandBlocks(blocks), Coded(lz.codes)) == history[..CodedTo()]
    {
      ReachSpan(history, blockStart, lz.codes, CodedTo());
    }

    // -------------------------------------------------------------- searching a match

    /** Link `i` of the chain that starts at the lookahead. */
    ghost function Pos(i: nat): int
      requires ChainsOk() && lookaheadPos + 2 < |history|
      reads `history, `lookaheadPos, `lookaheadSize, `dictSize, `since, next, hash
    {
      ChainPos(history, since, lookaheadPos, i)
    }

    /** The first `i` links can be followed inside the window. */
    ghost predicate Seen(i: nat)
      requires ChainsOk() && lookaheadPos + 2 < |history|
      reads `history, `lookaheadPos, `lookaheadSize, `dictSize, `since, next, hash
    {
      Visible(history, since, lookaheadPos, dictSize, i)
    }

    /** The search stands at link `i`, if it can be followed so far. */
    ghost predicate Standing(probePos: nat, i: nat)
      requires ChainsOk() && lookaheadPos + 2 < |history|
      reads `history, `lookaheadPos, `lookaheadSize, `dictSize, `since, next, hash
    {
      Seen(i) ==> probePos == Pos(i) % LZ_DICT_SIZE
    }

    /** The two bytes at the end of a match one longer than `len` agree at the position and at the lookahead. */
    ghost predicate Agrees(p: int, len: nat)
      reads `history, `lookaheadPos
    {
      AgreeAt(history, lookaheadPos, p, len)
    }

    /** Following a link of the chain. */
    lemma {:induction false} LinkFollowed(probePos: nat, i: nat)
      requires Shape() && WindowOk() && ChainsOk() && lookaheadSize >= 3 && probePos < LZ_DICT_SIZE && Standing(probePos, i)
      ensures Seen(i) ==> next[probePos] == Link(Pos(i + 1)) && Pos(i + 1) < Pos(i)
      ensures Seen(i + 1) ==> Seen(i) && 1 <= lookaheadPos - Pos(i + 1) <= dictSize && Pos(i + 1) >= 0
                              && next[probePos] == Pos(i + 1) % 0x10000 != 0
                              && (lookaheadPos - next[probePos]) % 0x10000 == lookaheadPos - Pos(i + 1)
      ensures Seen(i) && (next[probePos] == 0 || (lookaheadPos - next[probePos]) % 0x10000 > dictSize) ==> !Seen(i + 1)
    {
      hide ChainPos, Chained, InWindow;
      if Seen(i) {
        NextLink(next[..], hash[..], history, since, Inserted(), lookaheadPos, dictSize, i);
      }
      if Seen(i + 1) {
        assert Seen(i);
        LinkDistance(Pos(i + 1), lookaheadPos, dictSize);
      }
    }

    /** One step along the hash chain, from link `i`. */
    method TryProbe(probePos: nat, maxDist: nat, matchLen: nat, c0: Byte, c1: Byte, ghost i: nat)
      returns (probe: Probe, probePos': nat, dist: nat)
      requires Shape() && WindowOk() && ChainsOk() && 1 <= matchLen < lookaheadSize && lookaheadSize >= 3 && maxDist == dictSize
      requires probePos < LZ_DICT_SIZE && Standing(probePos, i)
      requires c0 == history[lookaheadPos + matchLen] && c1 == history[lookaheadPos + matchLen - 1]
      ensures probePos' < LZ_DICT_SIZE
      ensures !probe.Exhausted? ==> dist <= maxDist && probePos' == (lookaheadPos - dist) % LZ_DICT_SIZE && Standing(probePos', i + 1)
      ensures !probe.Exhausted? && Seen(i + 1) ==> 1 <= dist == lookaheadPos - Pos(i + 1)
      ensures probe.Exhausted? ==> !Seen(i + 1)
      ensures probe.Missed? && Seen(i + 1) ==> NoLonger(history, lookaheadPos, lookaheadSize, lookaheadPos - Pos(i + 1), matchLen)
      ensures probe.Hit? && Seen(i + 1) ==> Agrees(Pos(i + 1), matchLen)
    {
      hide InWindow, Latest, HashAt, Chained, ChainPos;
      LinkFollowed(probePos, i);
      var nextProbePos := next[probePos];
      dist := (lookaheadPos - nextProbePos) % 0x10000;
      if nextProbePos == 0 || dist > maxDist {
        NoFurther(i);
        return Exhausted, probePos, dist;
      }
      ProbePosition(lookaheadPos, nextProbePos, dist);
      probePos' := nextProbePos % LZ_DICT_SIZE;
      probe := if dict[probePos' + matchLen] == c0 && dict[probePos' + matchLen - 1] == c1 then Hit else Missed;
      if Seen(i + 1) {
        ReadAhead(dict[..], history, lookaheadPos - dictSize, Pos(i + 1), matchLen);
        ReadAhead(dict[..], history, lookaheadPos - dictSize, Pos(i + 1), matchLen - 1);
      }
    }

    /** What cannot be followed cannot be followed further. */
    lemma NoFurther(i: nat)
      requires ChainsOk() && lookaheadPos + 2 < |history|
      ensures !Seen(i) ==> !Seen(i + 1)
    {
    }

    /** The next position in the chain that agrees at the end of the best match so far; three probes a round. Links from
        `i` on to `j` are tried; they offer nothing longer, but for the last if one is found. */
    method NextCandidate(start: nat, left: nat, maxDist: nat, matchLen: nat, c0: Byte, c1: Byte, ghost i: nat)
      returns (found: bool, probePos: nat, dist: nat, left': nat, ghost j: nat)
      requires Shape() && WindowOk() && ChainsOk() && 1 <= matchLen < lookaheadSize && lookaheadSize >= 3 && maxDist == dictSize
      requires start < LZ_DICT_SIZE && Standing(start, i) && left >= 1
      requires c0 == history[lookaheadPos + matchLen] && c1 == history[lookaheadPos + matchLen - 1]
      ensures found ==> 1 <= left' < left && dist <= maxDist && probePos < LZ_DICT_SIZE
      ensures found ==> probePos == (lookaheadPos - dist) % LZ_DICT_SIZE && Standing(probePos, j)
      ensures found ==> j >= i + (left - left') && (Seen(j) ==> 1 <= dist == lookaheadPos - Pos(j) && Agrees(Pos(j), matchLen))
      ensures !found ==> !Seen(j + 1) || (left' == 0 && j == i + 3 * (left - 1))
      ensures j >= i && forall k | i < k <= j && Seen(k) && (found ==> k < j) ::
                          NoLonger(history, lookaheadPos, lookaheadSize, lookaheadPos - Pos(k), matchLen)
    {
      hide InWindow, Latest, HashAt, Chained, ChainPos, NoLonger, Compressor.Standing, Compressor.Seen, Compressor.Agrees;
      probePos, left', dist, j := start, left, 0, i;
      while true
        invariant 1 <= left' <= left && probePos < LZ_DICT_SIZE && Standing(probePos, j) && j == i + 3 * (left - left')
        invariant forall k | i < k <= j && Seen(k) :: NoLonger(history, lookaheadPos, lookaheadSize, lookaheadPos - Pos(k), matchLen)
        decreases left'
      {
        left' := left' - 1;
        if left' == 0 {
          return false, probePos, dist, left', j;
        }
        var round := 0;
        while round < 3
          invariant 0 <= round <= 3 && probePos < LZ_DICT_SIZE && Standing(probePos, j) && j == i + 3 * (left - left' - 1) + round
          invariant forall k | i < k <= j && Seen(k) :: NoLonger(history, lookaheadPos, lookaheadSize, lookaheadPos - Pos(k), matchLen)
        {
          var probe;
          probe, probePos, dist := TryProbe(probePos, maxDist, matchLen, c0, c1, j);
          if probe == Exhausted {
            return false, probePos, dist, left', j;
          }
          j := j + 1;
          if probe == Hit {
            return true, probePos, dist, left', j;
          }
          round := round + 1;
        }
      }
    }

    /** How far the lookahead repeats what stands `dist` bytes before it, and no further. */
    method CompareAt(probePos: nat, dist: nat, maxMatchLen: nat) returns (len: nat)
      requires Shape() && WindowOk() && maxMatchLen == lookaheadSize
      requires 1 <= dist <= dictSize && probePos == (lookaheadPos - dist) % LZ_DICT_SIZE
      ensures len <= maxMatchLen && Repeats(history, lookaheadPos, len, dist)
      ensures NoLonger(history, lookaheadPos, lookaheadSize, dist, len)
    {
      hide InWindow;
      var pos := lookaheadPos % LZ_DICT_SIZE;
      ghost var lo := lookaheadPos - dictSize;
      len := 0;
      while len < maxMatchLen
        invariant len <= maxMatchLen && Repeats(history, lookaheadPos, len, dist)
      {
        ReadAhead(dict[..], history, lo, lookaheadPos, len);
        ReadAhead(dict[..], history, lo, lookaheadPos - dist, len);
        if dict[pos + len] != dict[probePos + len] {
          return;
        }
        len := len + 1;
      }
    }

    /** How many probes a search may use, depending on the match to beat. */
    ghost function Probes(least: nat): nat {
      Budget(maxProbes0, maxProbes1, least)
    }

    method AllowedProbes(least: nat) returns (left: nat)
      requires Shape()
      ensures left == Probes(least) && left >= 1
    {
      left := if least >= 32 then maxProbes1 else maxProbes0;
    }

    ghost predicate Longest(least: nat, matchDist: nat, matchLen: nat)
      requires ChainsOk()
      reads `history, `lookaheadPos, `lookaheadSize, `dictSize, `since, next, hash
    {
      LongestAt(history, since, lookaheadPos, lookaheadSize, dictSize, Probes(least), least, matchDist, matchLen)
    }

    /** The two bytes at the end of the match to beat. */
    method EndOfMatch(pos: nat, len: nat) returns (c0: Byte, c1: Byte)
      requires Shape() && WindowOk() && pos == lookaheadPos % LZ_DICT_SIZE && 1 <= len < lookaheadSize
      ensures c0 == history[lookaheadPos + len] && c1 == history[lookaheadPos + len - 1]
    {
      ReadAhead(dict[..], history, lookaheadPos - dictSize, lookaheadPos, len);
      ReadAhead(dict[..], history, lookaheadPos - dictSize, lookaheadPos, len - 1);
      c0, c1 := dict[pos + len], dict[pos + len - 1];
    }

    lemma SearchStarts()
      requires Shape() && WindowOk() && ChainsOk() && lookaheadPos + 2 < |history|
      ensures Standing(lookaheadPos % LZ_DICT_SIZE, 0)
    {
    }

    /** What the search has come to with this much of its budget left: no link tried repeats the lookahead for longer
        than the match found, and the first that agreed at the end of the match to beat is `hit`. */
    ghost predicate Searched(least: nat, budget: nat, left: nat, tried: nat, hit: nat, dist: nat, len: nat)
      requires ChainsOk() && lookaheadPos + 2 < |history|
      reads `history, `lookaheadPos, `lookaheadSize, `dictSize, `since, next, hash
    {
      && len >= least && (len == least ==> dist == 0)
      && (len > least ==> 1 <= dist <= dictSize && Repeats(history, lookaheadPos, len, dist))
      && (forall i | 1 <= i <= tried && Seen(i) :: NoLonger(history, lookaheadPos, lookaheadSize, lookaheadPos - Pos(i), len))
      && 1 <= left <= budget && tried >= budget - left && (hit == 0 ==> left == budget && tried == 0 && len == least)
      && (hit > 0 ==> hit <= tried && (Seen(hit) ==> Agrees(Pos(hit), least)))
    }

    lemma NothingSearched(least: nat, budget: nat)
      requires ChainsOk() && lookaheadPos + 2 < |history| && budget >= 1
      ensures Searched(least, budget, budget, 0, 0, 0, least)
    {
    }

    lemma SearchedIsMatch(least: nat, budget: nat, left: nat, tried: nat, hit: nat, dist: nat, len: nat)
      requires ChainsOk() && lookaheadPos + 2 < |history| && Searched(least, budget, left, tried, hit, dist, len)
      ensures len >= least && (len == least ==> dist == 0)
      ensures len > least ==> 1 <= dist <= dictSize && Repeats(history, lookaheadPos, len, dist)
    {
    }

    /** Comparing at one more link. */
    lemma SearchedOn(least: nat, budget: nat, left0: nat, left: nat, before: nat, tried: nat, hit: nat, dist: nat, len: nat,
                     found: nat, probeLen: nat)
      requires ChainsOk() && lookaheadPos + 2 < |history| && Searched(least, budget, left0, before, hit, dist, len)
      requires 1 <= left < left0 && tried >= before + (left0 - left)
      requires forall i | before < i < tried && Seen(i) :: NoLonger(history, lookaheadPos, lookaheadSize, lookaheadPos - Pos(i), len)
      requires Seen(tried) ==> found == lookaheadPos - Pos(tried) && Agrees(Pos(tried), len)
      requires 1 <= found <= dictSize && Repeats(history, lookaheadPos, probeLen, found)
      requires NoLonger(history, lookaheadPos, lookaheadSize, found, probeLen)
      ensures Searched(least, budget, left, tried, if hit == 0 then tried else hit, if probeLen > len then found else dist,
                       if probeLen > len then probeLen else len)
    {
      hide Repeats, Chained, ChainPos, Compressor.Seen, Compressor.Pos, Compressor.Agrees;
    }

    /** A match as long as the lookahead cannot be beaten. */
    lemma NothingLonger(least: nat, matchLen: nat)
      requires ChainsOk() && lookaheadPos + 2 < |history| && matchLen >= lookaheadSize
      ensures forall i: nat | i >= 1 && TriedAt(history, since, lookaheadPos, dictSize, Probes(least), least, i) ::
                NoLonger(history, lookaheadPos, lookaheadSize, lookaheadPos - ChainPos(history, since, lookaheadPos, i), matchLen)
    {
      hide Repeats, Latest, HashAt, Chained;
    }

    /** The search ends where the chain or the budget does. */
    lemma {:induction false} SearchEnds(least: nat, dist: nat, matchLen: nat, before: nat, tried: nat, found: bool, left0: nat,
                                            left: nat, budget: nat, hit: nat)
      requires ChainsOk() && lookaheadPos + 2 < |history| && before <= tried && budget == Probes(least)
      requires Searched(least, budget, left0, before, hit, dist, matchLen)
      requires forall i | before < i <= tried && Seen(i) && (found ==> i < tried) ::
                 NoLonger(history, lookaheadPos, lookaheadSize, lookaheadPos - Pos(i), matchLen)
      requires found ==> !Seen(tried)
      requires !found ==> !Seen(tried + 1) || (left == 0 && tried == before + 3 * (left0 - 1))
      ensures forall i: nat | i >= 1 && TriedAt(history, since, lookaheadPos, dictSize, Probes(least), least, i) ::
                NoLonger(history, lookaheadPos, lookaheadSize, lookaheadPos - ChainPos(history, since, lookaheadPos, i), matchLen)
    {
      hide NoLonger, ChainPos, Chained, AgreeAt;
      forall i: nat | i >= 1 && TriedAt(history, since, lookaheadPos, dictSize, Probes(least), least, i)
        ensures NoLonger(history, lookaheadPos, lookaheadSize, lookaheadPos - ChainPos(history, since, lookaheadPos, i), matchLen)
      {
        SeenBefore(i);
        assert Seen(i) && Pos(i) == ChainPos(history, since, lookaheadPos, i);
        assert 0 < hit < i ==> AgreeAt(history, lookaheadPos, Pos(hit), least);
        assert i <= tried && (found ==> i < tried);
      }
    }

    lemma SeenBefore(i: nat)
      requires ChainsOk() && lookaheadPos + 2 < |history| && Seen(i)
      ensures forall j: nat | j <= i :: Seen(j)
    {
    }

    /** The longest match the chain offers that is longer than `least`, if any. */
    method FindMatch(least: nat) returns (matchDist: nat, matchLen: nat)
      requires Shape() && WindowOk() && ChainsOk() && 2 <= least < 128
      ensures Longest(least, matchDist, matchLen)
    {
      hide InWindow, Repeats, NoLonger, Chained, ChainPos, Latest, HashAt, Compressor.Agrees, Compressor.Seen, Compressor.Standing,
        Compressor.Pos, TriedAt, AgreeAt, Compressor.Shape, Compressor.Probes,
        Compressor.Searched;
      var pos := lookaheadPos % LZ_DICT_SIZE;
      var probePos: nat := pos;
      matchDist, matchLen := 0, least;
      var left: nat := AllowedProbes(least);
      if lookaheadSize <= least {
        if lookaheadPos + 2 < |history| {
          NothingLonger(least, least);
        }
        return;
      }
      var c0, c1 := EndOfMatch(pos, least);
      ghost var tried: nat, hit: nat, budget := 0, 0, left;
      SearchStarts();
      NothingSearched(least, budget);
      while true
        invariant least <= matchLen < lookaheadSize && probePos < LZ_DICT_SIZE && 1 <= left && Standing(probePos, tried)
        invariant c0 == history[lookaheadPos + matchLen] && c1 == history[lookaheadPos + matchLen - 1]
        invariant Searched(least, budget, left, tried, hit, matchDist, matchLen)
        decreases left
      {
        ghost var before, j := tried, 0;
        ghost var left0 := left;
        var found, dist;
        found, probePos, dist, left, j := NextCandidate(probePos, left, dictSize, matchLen, c0, c1, tried);
        tried := j;
        if !found || dist == 0 {
          SearchEnds(least, matchDist, matchLen, before, tried, found, left0, left, budget, hit);
          SearchedIsMatch(least, budget, left0, before, hit, matchDist, matchLen);
          return;
        }
        var probeLen := CompareAt(probePos, dist, lookaheadSize);
        SearchedOn(least, budget, left0, left, before, tried, hit, matchDist, matchLen, dist, probeLen);
        hit := if hit == 0 then tried else hit;
        if probeLen > matchLen {
          matchDist, matchLen := dist, probeLen;
          if matchLen == lookaheadSize {
            NothingLonger(least, matchLen);
            return;
          }
          c0, c1 := EndOfMatch(pos, matchLen);
        }
      }
    }

    ghost predicate LongestRun(matchDist: nat, matchLen: nat)
      reads `history, `lookaheadPos, `lookaheadSize
    {
      LongestRunAt(history, lookaheadPos, lookaheadSize, matchDist, matchLen)
    }

    /** A run that is broken, or ends with the lookahead, is no longer. */
    lemma RunEnds(n: nat, c: Byte)
      requires WindowOk() && lookaheadPos > 0 && n <= lookaheadSize
      requires forall p | lookaheadPos - 1 <= p < lookaheadPos + n :: history[p] == c
      requires n < lookaheadSize ==> history[lookaheadPos + n] != c
      ensures Repeats(history, lookaheadPos, n, 1) && NoLonger(history, lookaheadPos, lookaheadSize, 1, n)
      ensures n < MIN_MATCH_LEN ==> NoLonger(history, lookaheadPos, lookaheadSize, 1, MIN_MATCH_LEN - 1)
    {
      forall len: nat | n < len <= lookaheadSize
        ensures !Repeats(history, lookaheadPos, len, 1)
      {
        assert history[lookaheadPos + n] != history[lookaheadPos + n - 1];
      }
    }

    /** How far the lookahead continues the byte before it, if for three bytes at least. */
    method FindRun() returns (matchDist: nat, matchLen: nat)
      requires Shape() && WindowOk() && dictSize > 0
      ensures LongestRun(matchDist, matchLen)
    {
      hide InWindow;
      ghost var lo := lookaheadPos - dictSize;
      var curPos := lookaheadPos % LZ_DICT_SIZE;
      ReadAhead(dict[..], history, lo, lookaheadPos - 1, 0);
      assert (curPos - 1) % LZ_DICT_SIZE == (lookaheadPos - 1) % LZ_DICT_SIZE;
      var c := dict[(curPos - 1) % LZ_DICT_SIZE];
      matchLen := 0;
      while matchLen < lookaheadSize
        invariant matchLen <= lookaheadSize
        invariant forall p | lookaheadPos - 1 <= p < lookaheadPos + matchLen :: history[p] == c
        decreases lookaheadSize - matchLen
      {
        ReadAhead(dict[..], history, lo, lookaheadPos, matchLen);
        if dict[curPos + matchLen] != c {
          assert history[lookaheadPos + matchLen] != c;
          break;
        }
        matchLen := matchLen + 1;
      }
      RunEnds(matchLen, c);
      if matchLen < MIN_MATCH_LEN {
        matchDist, matchLen := 0, 0;
      } else {
        matchDist := 1;
      }
    }

    // -------------------------------------------------------------- filling the dictionary

    /** The oldest position that survives in the ring once the history ends at `end`. */
    ghost function Oldest(end: int): int
      reads `lookaheadPos, `dictSize
    {
      if end - LZ_DICT_SIZE > lookaheadPos - dictSize then end - LZ_DICT_SIZE else lookaheadPos - dictSize
    }

    /** The ring while input is being added: the dictionary size is corrected only afterwards. */
    ghost predicate Filling(end: int)
      reads `history, `lookaheadPos, `dictSize, dict
    {
      && |history| == end && dictSize <= lookaheadPos <= end <= lookaheadPos + MAX_MATCH_LEN && dictSize <= LZ_DICT_SIZE
      && InWindow(dict[..], history, Oldest(end))
    }

    /** Stores the next byte in the ring and in its copy after the end. */
    method StoreByte(dstPos: nat, c: Byte)
      requires Shape() && Filling(|history|) && dstPos == |history| % LZ_DICT_SIZE
      requires |history| < lookaheadPos + MAX_MATCH_LEN
      modifies dict, `history
      ensures history == old(history) + [c] && Filling(|history|)
    {
      ghost var before := dict[..];
      StoreKeeps(before, history, Oldest(|history|), Oldest(|history| + 1), c);
      hide InWindow;
      dict[dstPos] := c;
      if dstPos < MAX_MATCH_LEN - 1 {
        dict[LZ_DICT_SIZE + dstPos] := c;
      }
      assert dict[..] == StoreAt(before, |history|, c);
      history := history + [c];
    }

    /** The chains while input is being added. */
    ghost predicate ChainedTo(n: int)
      reads `history, `since, next, hash
    {
      n >= 0 && Chained(next[..], hash[..], history, since, n)
    }

    /** Puts position `insPos` at the head of its hash chain. */
    method Chain(insPos: nat, h: bv32)
      requires Shape() && ChainedTo(insPos) && insPos + 2 < |history| && h < 0x8000 && h as int == HashAt(history, insPos)
      modifies next, hash
      ensures ChainedTo(insPos + 1)
    {
      hide HashAt;
      HashIndex(h);
      ghost var before: seq<Word16>, heads: seq<Word16> := next[..], hash[..];
      ChainedOne(before, heads, history, since, insPos);
      next[insPos % LZ_DICT_SIZE] := hash[h as int];
      hash[h as int] := insPos % 0x10000;
      assert next[..] == before[insPos % LZ_DICT_SIZE := heads[h as int]];
      assert hash[..] == heads[h as int := insPos % 0x10000];
    }

    /** The hash of the two bytes before the end, and what was before, so that one more byte makes it the hash of three. */
    ghost predicate Rolling(h: bv32, insPos: int)
      reads `history
    {
      && 0 <= insPos == |history| - 2
      && (h == HashTwo(history[insPos], history[insPos + 1])
          || (insPos > 0 && h == HashThree(history[insPos - 1], history[insPos], history[insPos + 1])))
    }

    /** Stores a byte at the end and chains the position two before it. */
    method AddRolling(dstPos: nat, insPos: nat, h: bv32, c: Byte) returns (dstPos': nat, insPos': nat, h': bv32)
      requires Shape() && Filling(|history|) && |history| < lookaheadPos + MAX_MATCH_LEN
      requires dstPos == |history| % LZ_DICT_SIZE && Rolling(h, insPos) && ChainedTo(insPos)
      modifies dict, next, hash, `history
      ensures history == old(history) + [c] && Filling(|history|)
      ensures dstPos' == |history| % LZ_DICT_SIZE && Rolling(h', insPos') && ChainedTo(insPos')
    {
      hide Filling, Chained, HashThree, HashTwo, HashStep;
      ghost var known := history;
      RolledHash(h, insPos, c);
      ChainedGrows(next[..], hash[..], history, c, since, insPos);
      StoreByte(dstPos, c);
      h' := HashStep(h, c as bv32);
      Chain(insPos, h');
      dstPos' := (dstPos + 1) % LZ_DICT_SIZE;
      insPos' := insPos + 1;
    }

    lemma RolledHash(h: bv32, insPos: nat, c: Byte)
      requires Rolling(h, insPos)
      ensures HashStep(h, c as bv32) == HashThree(history[insPos], history[insPos + 1], c)
      ensures HashStep(h, c as bv32) as int == HashAt(history + [c], insPos)
    {
      RollsFromTwo(history[insPos], history[insPos + 1], c);
      if insPos > 0 {
        RollsOn(history[insPos - 1], history[insPos], history[insPos + 1], c);
      }
      hide HashThree, HashTwo, HashStep;
    }

    /** The bytes of the ring at the last two positions. */
    lemma LastTwo(insPos: nat)
      requires Shape() && WindowOk() && lookaheadSize + dictSize >= 2 && insPos == |history| - 2
      ensures dict[insPos % LZ_DICT_SIZE] == history[insPos] && dict[(insPos + 1) % LZ_DICT_SIZE] == history[insPos + 1]
    {
      ReadAhead(dict[..], history, lookaheadPos - dictSize, insPos, 0);
      ReadAhead(dict[..], history, lookaheadPos - dictSize, insPos + 1, 0);
    }

    /** Adds input with a rolling hash. */
    method FillRolling(src: seq<Byte>, from: nat) returns (used: nat)
      requires Shape() && WindowOk() && ChainsOk() && from <= |src| && lookaheadSize + dictSize >= MIN_MATCH_LEN - 1
      modifies dict, next, hash, `lookaheadSize, `history
      ensures from <= used <= |src| && used - from == Least(|src| - from, MAX_MATCH_LEN - old(lookaheadSize))
      ensures history == old(history) + src[from..used] && lookaheadSize == old(lookaheadSize) + used - from
      ensures Filling(lookaheadPos + lookaheadSize) && ChainedTo(Inserted())
    {
      hide InWindow, Chained, HashTwo, HashThree, HashStep;
      var dstPos := (lookaheadPos + lookaheadSize) % LZ_DICT_SIZE;
      var insPos: nat := lookaheadPos + lookaheadSize - 2;
      LastTwo(insPos);
      var h := HashTwo(dict[insPos % LZ_DICT_SIZE], dict[(insPos + 1) % LZ_DICT_SIZE]);
      var count := Least(|src| - from, MAX_MATCH_LEN - lookaheadSize);
      var end := from + count;
      lookaheadSize := lookaheadSize + count;
      used := from;
      assert src[from..used] == [];
      assert Filling(|history|);
      hide Filling;
      while used < end
        invariant from <= used <= end && history == old(history) + src[from..used]
        invariant dstPos == |history| % LZ_DICT_SIZE && Rolling(h, insPos) && ChainedTo(insPos)
        invariant Filling(|history|) && lookaheadSize == old(lookaheadSize) + count
      {
        var c := src[used];
        TakeOne(src, from, used);
        used := used + 1;
        dstPos, insPos, h := AddRolling(dstPos, insPos, h, c);
      }
    }

    /** Adds input while fewer than two bytes are known: the hash of a position is computed afresh. */
    method FillAfresh(src: seq<Byte>, from: nat) returns (used: nat)
      requires Shape() && WindowOk() && ChainsOk() && from <= |src| && since + dictSize == lookaheadPos
      modifies dict, next, hash, `lookaheadSize, `history
      ensures from <= used <= |src| && used - from == Least(|src| - from, MAX_MATCH_LEN - old(lookaheadSize))
      ensures history == old(history) + src[from..used] && lookaheadSize == old(lookaheadSize) + used - from
      ensures Filling(lookaheadPos + lookaheadSize) && ChainedTo(Inserted())
    {
      hide InWindow, Chained, HashThree, HashAt;
      used := from;
      assert src[from..used] == [];
      while used < |src| && lookaheadSize < MAX_MATCH_LEN
        invariant from <= used <= |src| && history == old(history) + src[from..used]
        invariant lookaheadSize == old(lookaheadSize) + used - from <= MAX_MATCH_LEN
        invariant Filling(lookaheadPos + lookaheadSize) && ChainedTo(Inserted())
      {
        var c := src[used];
        TakeOne(src, from, used);
        used := used + 1;
        ChainedGrows(next[..], hash[..], history, c, since, Inserted());
        StoreByte((lookaheadPos + lookaheadSize) % LZ_DICT_SIZE, c);
        lookaheadSize := lookaheadSize + 1;
        if lookaheadSize + dictSize >= MIN_MATCH_LEN {
          var insPos: nat := lookaheadPos + (lookaheadSize - 1) - 2;
          FreshHash(insPos);
          Chain(insPos, HashThree(dict[insPos % LZ_DICT_SIZE], dict[(insPos + 1) % LZ_DICT_SIZE], c));
        }
      }
    }

    /** The bytes of the ring at the last three positions. */
    lemma FreshHash(insPos: nat)
      requires Shape() && Filling(|history|) && |history| == lookaheadPos + lookaheadSize && insPos == |history| - 3
      requires insPos >= lookaheadPos - dictSize && since <= insPos
      ensures dict[insPos % LZ_DICT_SIZE] == history[insPos] && dict[(insPos + 1) % LZ_DICT_SIZE] == history[insPos + 1]
      ensures HashThree(history[insPos], history[insPos + 1], history[insPos + 2]) as int == HashAt(history, insPos)
    {
      hide HashThree;
      ReadAhead(dict[..], history, Oldest(|history|), insPos, 0);
      ReadAhead(dict[..], history, Oldest(|history|), insPos + 1, 0);
    }

    /** Keeps the lookahead as long as a match can be, and gives up the oldest bytes for it. */
    method FillLookahead(src: seq<Byte>, from: nat) returns (used: nat)
      requires Valid() && from <= |src|
      modifies dict, next, hash, `lookaheadSize, `history, `dictSize
      ensures Valid() && from <= used <= |src|
      ensures used - from == Least(|src| - from, MAX_MATCH_LEN - old(lookaheadSize))
      ensures history == old(history) + src[from..used] && lookaheadSize == old(lookaheadSize) + used - from
    {
      hide InWindow, Reach, DecodableBlocks, ExpandBlocks, Repeats, CodedFrom, Chained, Parse, AllRecorded, AllTurns, LzBuffer.Valid;
      ghost var history0 := history;
      if lookaheadSize + dictSize >= MIN_MATCH_LEN - 1 {
        used := FillRolling(src, from);
      } else {
        used := FillAfresh(src, from);
      }
      dictSize := Least(LZ_DICT_SIZE - lookaheadSize, dictSize);
      StillCoded(history0, src[from..used]);
    }

    /** What was coded and decided stays so when more is known. */
    lemma StillCoded(history0: seq<Byte>, more: seq<Byte>)
      requires history == history0 + more && blockStart <= |history0| && ExpandBlocks(blocks) == history0[..blockStart]
      requires Reach(history0, blockStart, lz.codes, CodedTo())
      requires CodedFrom(history0, blocks, since, sinceBlock, blockStart, lz.codes, CodedTo())
      requires Parse(options, maxProbes0, maxProbes1, history0, Turns(), lookaheadPos, Waiting())
      requires savedMatchLen > 0 ==>
                 && lookaheadPos >= 1 && Repeats(history0, lookaheadPos - 1, savedMatchLen, savedMatchDist)
                 && lookaheadPos <= |history0| && savedLit == history0[lookaheadPos - 1]
      ensures ExpandBlocks(blocks) == history[..blockStart] && Reach(history, blockStart, lz.codes, CodedTo())
      ensures SelfContained(CodedTo()) && Parse(options, maxProbes0, maxProbes1, history, Turns(), lookaheadPos, Waiting())
      ensures savedMatchLen > 0 ==>
                && Repeats(history, lookaheadPos - 1, savedMatchLen, savedMatchDist) && savedLit == history[lookaheadPos - 1]
    {
      hide Reach, Repeats, ExpandBlocks, CodedFrom, Parse, Compressor.Turns;
      ReachGrows(history0, more, blockStart, lz.codes, CodedTo());
      ParseGrows(options, maxProbes0, maxProbes1, history0, more, Turns(), lookaheadPos, Waiting());
      CodedGrows(history0, more, blocks, since, sinceBlock, blockStart, lz.codes, CodedTo());
      assert history[..blockStart] == history0[..blockStart];
      if savedMatchLen > 0 {
        RepeatsGrows(history0, more, lookaheadPos - 1, savedMatchLen, savedMatchDist);
      }
    }

    // -------------------------------------------------------------- parsing

    method EmitLiteral(ghost at: nat, lit: Byte)
      requires Shape() && lz.Valid() && lz.end + 2 <= CODE_BUF_SIZE
      requires CodesReach(at) && SelfContained(at) && at < |history| && history[at] == lit
      modifies lz, lz.codeBuf, lz.litCounts
      ensures lz.Valid() && CodesReach(at + 1) && SelfContained(at + 1) && lz.end <= old(lz.end) + 2
      ensures lz.codes == old(lz.codes) + [Literal(lit)]
    {
      ReachLiteral(history, blockStart, lz.codes, at);
      CodedLiteral(history, blocks, since, sinceBlock, blockStart, lz.codes, at);
      hide CodedFrom, Reach, Recording, Counted, DecodableBlocks, ExpandBlocks;
      lz.RecordLiteral(lit);
    }

    method EmitMatch(ghost at: nat, len: nat, dist: nat)
      requires Shape() && lz.Valid() && lz.end + 4 <= CODE_BUF_SIZE && Expressible(Match(len, dist))
      requires CodesReach(at) && SelfContained(at) && Repeats(history, at, len, dist) && dist <= at - since
      modifies lz, lz.codeBuf, lz.litCounts, lz.distCounts
      ensures lz.Valid() && CodesReach(at + len) && SelfContained(at + len) && lz.end <= old(lz.end) + 4
      ensures lz.codes == old(lz.codes) + [Match(len, dist)]
    {
      ReachMatch(history, blockStart, lz.codes, at, len, dist);
      CodedMatch(history, blocks, since, sinceBlock, blockStart, lz.codes, at, len, dist);
      hide CodedFrom, Reach, Repeats, Recording, Counted, DecodableBlocks, ExpandBlocks;
      lz.RecordMatch(len, dist);
    }

    /** Whether a match was found at the lookahead. */
    ghost predicate Candidate(dist: nat, len: nat)
      reads this
    {
      dist > 0 ==>
        && MIN_MATCH_LEN <= len <= MAX_MATCH_LEN && len <= lookaheadSize && dist <= LZ_DICT_SIZE
        && dist <= lookaheadPos - since && Repeats(history, lookaheadPos, len, dist)
    }

    /** The match that the search offers. */
    ghost predicate Offered(dist: nat, len: nat)
      requires ChainsOk()
      reads this, next, hash
    {
      var least := ToBeat(Waiting());
      OfferedAt(options, history, since, lookaheadPos, lookaheadSize, dictSize, Probes(least), least, dist, len)
    }

    ghost predicate Chosen(dist: nat, len: nat)
      requires ChainsOk()
      reads this, next, hash
    {
      var least := ToBeat(Waiting());
      ChosenAt(options, history, since, lookaheadPos, lookaheadSize, dictSize, Probes(least), least, dist, len)
    }

    /** The match to be considered at the lookahead: found, then given up if it is not worth its price. */
    method ChooseMatch() returns (dist: nat, len: nat)
      requires Shape() && WindowOk() && ChainsOk() && savedMatchLen < 128 && (savedMatchLen > 0 ==> savedMatchLen >= MIN_MATCH_LEN)
      ensures Chosen(dist, len)
      ensures dist == 0 ==> len <= ToBeat(Waiting())
      ensures Candidate(dist, len)
    {
      hide InWindow, Chained, NoLonger, TriedAt;
      dist, len := 0, if savedMatchLen > 0 then savedMatchLen else MIN_MATCH_LEN - 1;
      var curPos := lookaheadPos % LZ_DICT_SIZE;
      if options.rleMatches || options.rawBlocks {
        if dictSize > 0 && !options.rawBlocks {
          dist, len := FindRun();
        }
      } else {
        dist, len := FindMatch(len);
      }
      assert Offered(dist, len);
      ghost var d, l := dist, len;
      if (len == MIN_MATCH_LEN && dist >= 8 * 1024) || curPos == dist || (options.filterMatches && len <= 5) {
        dist, len := 0, 0;
      }
      assert OfferedAt(options, history, since, lookaheadPos, lookaheadSize, dictSize, Probes(ToBeat(Waiting())), ToBeat(Waiting()), d, l);
    }

    /** The bytes up to the lookahead and `move` more are dealt with, the last of them perhaps by a saved match. */
    ghost predicate Dealt(move: nat)
      reads this, dict, next, hash, lz, lz.codeBuf, lz.litCounts, lz.distCounts
    {
      && Shape() && lz.Valid() && WindowOk() && ChainsOk() && 1 <= move <= lookaheadSize
      && CodesReach(lookaheadPos + move - (if savedMatchLen > 0 then 1 else 0))
      && SelfContained(lookaheadPos + move - (if savedMatchLen > 0 then 1 else 0))
      && SavedAt(lookaheadPos + move)
    }

    ghost predicate Decided(move: nat)
      reads this, dict, next, hash, lz, lz.codeBuf, lz.litCounts, lz.distCounts
    {
      Dealt(move) && Traced(lookaheadPos + move)
    }

    /** Where the first byte of the lookahead stands. */
    method NextByteAt() returns (curPos: nat)
      requires Shape() && WindowOk() && lookaheadSize > 0
      ensures curPos < LZ_DICT_SIZE && dict[curPos] == history[lookaheadPos] && lookaheadPos + lookaheadSize == |history|
    {
      curPos := lookaheadPos % LZ_DICT_SIZE;
      ReadAhead(dict[..], history, lookaheadPos - dictSize, lookaheadPos, 0);
    }

    /** A match is saved: a longer one at the lookahead replaces it, after a literal, and is recorded at once if it is
        very long. Otherwise the saved match is recorded. */
    method ResolveSaved(dist: nat, len: nat) returns (move: nat)
      requires Valid() && lookaheadSize > 0 && savedMatchLen > 0
      requires Candidate(dist, len) && (dist == 0 ==> len <= savedMatchLen)
      modifies lz, lz.codeBuf, lz.litCounts, lz.distCounts, `savedMatchLen, `savedMatchDist, `savedLit
      ensures Dealt(move) && lz.end <= old(lz.end) + 6
      ensures len > old(savedMatchLen) && len >= 128 ==>
                && lz.codes == old(lz.codes) + [Literal(history[lookaheadPos - 1]), Match(len, dist)]
                && move == len && savedMatchLen == 0
      ensures old(savedMatchLen) < len < 128 ==>
                && lz.codes == old(lz.codes) + [Literal(history[lookaheadPos - 1])]
                && move == 1 && Waiting() == Saved(len, dist, history[lookaheadPos])
      ensures len <= old(savedMatchLen) ==>
                && lz.codes == old(lz.codes) + [Match(old(savedMatchLen), old(savedMatchDist))]
                && move == old(savedMatchLen) - 1 && savedMatchLen == 0
    {
      hide InWindow, Reach, Repeats, Recording, Counted, DecodableBlocks, ExpandBlocks, WindowOk, CodesReach, LzBuffer.Valid,
        CodedFrom, Compressor.ChainsOk, Compressor.SelfContained, Compressor.Traced;
      var curPos := NextByteAt();
      RepeatsBounds(history, lookaheadPos - 1, savedMatchLen, savedMatchDist);
      ghost var codes := lz.codes;
      if len > savedMatchLen {
        EmitLiteral(lookaheadPos - 1, savedLit);
        if len >= 128 {
          EmitMatch(lookaheadPos, len, dist);
          savedMatchLen := 0;
          move := len;
          assert codes + [Literal(savedLit)] + [Match(len, dist)] == codes + [Literal(savedLit), Match(len, dist)];
        } else {
          savedLit, savedMatchDist, savedMatchLen := dict[curPos], dist, len;
          move := 1;
        }
      } else {
        EmitMatch(lookaheadPos - 1, savedMatchLen, savedMatchDist);
        move := savedMatchLen - 1;
        savedMatchLen := 0;
      }
    }

    /** No match is saved: the one at the lookahead is recorded at once or saved. */
    method StartAfresh(dist: nat, len: nat) returns (move: nat)
      requires Valid() && lookaheadSize > 0 && savedMatchLen == 0 && Candidate(dist, len)
      modifies lz, lz.codeBuf, lz.litCounts, lz.distCounts, `savedMatchLen, `savedMatchDist, `savedLit
      ensures Dealt(move) && lz.end <= old(lz.end) + 4
      ensures dist == 0 ==> lz.codes == old(lz.codes) + [Literal(history[lookaheadPos])] && move == 1 && savedMatchLen == 0
      ensures dist > 0 && AtOnce(options, len) ==> lz.codes == old(lz.codes) + [Match(len, dist)] && move == len && savedMatchLen == 0
      ensures dist > 0 && !AtOnce(options, len) ==>
                lz.codes == old(lz.codes) && move == 1 && Waiting() == Saved(len, dist, history[lookaheadPos])
    {
      hide InWindow, Reach, Repeats, Recording, Counted, DecodableBlocks, ExpandBlocks, WindowOk, CodesReach, LzBuffer.Valid,
        CodedFrom, Compressor.ChainsOk, Compressor.SelfContained, Compressor.Traced;
      var curPos := NextByteAt();
      move := 1;
      if dist == 0 {
        EmitLiteral(lookaheadPos, dict[Least(curPos, DICT_LENGTH - 1)]);
      } else if options.greedy || options.rleMatches || len >= 128 {
        EmitMatch(lookaheadPos, len, dist);
        move := len;
      } else {
        savedLit, savedMatchDist, savedMatchLen := dict[Least(curPos, DICT_LENGTH - 1)], dist, len;
      }
    }

    /** What is decided at the lookahead if this match is chosen. */
    ghost function TurnFor(dist: nat, len: nat): Turn
      requires lookaheadPos < |history|
      reads `history, `lookaheadPos, `lookaheadSize, `since, `savedMatchLen, `savedMatchDist, `savedLit
    {
      Turn(lookaheadPos, lookaheadSize, since, Waiting(), history[lookaheadPos], dist, len)
    }

    /** One decision of the lazy parser, on the match chosen at the lookahead. */
    method Decide() returns (move: nat, ghost t: Turn)
      requires Valid() && lookaheadSize > 0
      modifies lz, lz.codeBuf, lz.litCounts, lz.distCounts, `savedMatchLen, `savedMatchDist, `savedLit, `open
      ensures Decided(move) && lz.end <= old(lz.end) + 6
      ensures open == old(open) + [t] && Turns() == old(Turns()) + [t] && t == old(TurnFor(t.dist, t.len)) && TurnOk(options, maxProbes0, maxProbes1, history, t)
      ensures lz.codes == old(lz.codes) + CodesOfTurn(options, t) && move == Move(options, t) && t.at + t.look == |history|
      ensures if savedMatchLen > 0 then Waiting() == SavedAfter(options, t) else SavedAfter(options, t).len == 0
    {
      hide InWindow, Reach, Repeats, Recording, Counted, DecodableBlocks, ExpandBlocks, CodesReach, LzBuffer.Valid, CodedFrom,
        Chained, ChosenAt, Parse, AllRecorded, Compressor.ChainsOk, Compressor.SelfContained, Compressor.CodesReach, AllTurns,
        Compressor.Dealt, Compressor.Decided;
      var dist, len := ChooseMatch();
      ghost var codes := lz.codes;
      t := TurnFor(dist, len);
      TurnTaken(t);
      if savedMatchLen > 0 {
        move := ResolveSaved(dist, len);
      } else {
        move := StartAfresh(dist, len);
      }
      TakeTurn(t, codes, move);
    }

    /** The turn becomes part of the parse. */
    ghost method TakeTurn(t: Turn, codes: seq<Code>, move: nat)
      requires Dealt(move) && t.at == lookaheadPos && t.look == lookaheadSize && move == Move(options, t) && TurnOk(options, maxProbes0, maxProbes1, history, t)
      requires Parse(options, maxProbes0, maxProbes1, history, Turns(), t.at, t.saved)
      requires if savedMatchLen > 0 then Waiting() == SavedAfter(options, t) else SavedAfter(options, t).len == 0
      requires |closed| == |blocks| && codes == AllRecorded(options, open) && lz.codes == codes + CodesOfTurn(options, t)
      modifies `open
      ensures open == old(open) + [t] && Turns() == old(Turns()) + [t] && Decided(move)
    {
      hide TurnOk, AllRecorded, AllTurns, CodesOfTurn, Move, SavedAfter, Compressor.WindowOk, Compressor.ChainsOk, Compressor.CodesReach,
        Compressor.SelfContained, Compressor.SavedAt, LzBuffer.Valid, Compressor.Shape;
      OneMoreTurn(options, maxProbes0, maxProbes1, history, Turns(), t, Waiting());
      RecordedOne(options, open, t);
      assert AllTurns(closed) + open + [t] == AllTurns(closed) + (open + [t]);
      open := open + [t];
    }

    /** The choice is a turn of the parse. */
    lemma TurnTaken(t: Turn)
      requires Valid() && lookaheadSize > 0 && Chosen(t.dist, t.len)
      requires t == TurnFor(t.dist, t.len)
      ensures TurnOk(options, maxProbes0, maxProbes1, history, t)
    {
      hide ChosenAt, InWindow, Chained, Reach, CodedFrom, Parse, AllRecorded, LzBuffer.Valid;
      assert history[..t.at + t.look] == history;
    }

    /** Moves the lookahead forward. */
    method Advance(move: nat)
      requires Decided(move)
      modifies `lookaheadPos, `lookaheadSize, `dictSize
      ensures Steady()
      ensures lookaheadPos == old(lookaheadPos) + move && lookaheadSize == old(lookaheadSize) - move
    {
      hide Reach, Repeats, Recording, Counted, DecodableBlocks, ExpandBlocks, CodesReach, LzBuffer.Valid, CodedFrom, Chained, Parse,
        AllRecorded;
      lookaheadPos := lookaheadPos + move;
      lookaheadSize := lookaheadSize - move;
      dictSize := Least(dictSize + move, LZ_DICT_SIZE);
    }

    // -------------------------------------------------------------- blocks

    /** The bytes of a stored block, read back from the ring. */
    method BlockBytes(count: nat) returns (bytes: seq<Byte>)
      requires Shape() && WindowOk() && blockStart + count <= |history| && lookaheadPos - blockStart <= dictSize
      ensures bytes == history[blockStart..blockStart + count]
    {
      hide InWindow;
      bytes := [];
      var i := 0;
      while i < count
        invariant i <= count && bytes == history[blockStart..blockStart + i]
      {
        ReadAhead(dict[..], history, lookaheadPos - dictSize, blockStart + i, 0);
        bytes := bytes + [dict[(blockStart + i) % LZ_DICT_SIZE]];
        i := i + 1;
      }
    }

    /** The recorded codes are finished and can be written. */
    ghost predicate Finished()
      reads this, dict, next, hash, lz, lz.codeBuf, lz.litCounts, lz.distCounts
    {
      && Shape() && WindowOk() && ChainsOk() && SavedAt(lookaheadPos) && CodesReach(CodedTo()) && SelfContained(CodedTo())
      && Traced(lookaheadPos) && ReadyToWrite(lz) && lz.totalBytes == CodedTo() - blockStart
    }

    method FinishCodes()
      requires Steady()
      modifies lz.codeBuf, lz`end
      ensures Finished() && Counted(lz.litCounts[..], lz.distCounts[..], lz.codes)
    {
      hide WindowOk, SavedAt, Reach, Recording, DecodableBlocks, ExpandBlocks, Serialized, Counted, CodedFrom, Compressor.ChainsOk, Parse, AllRecorded;
      ReachSpan(history, blockStart, lz.codes, CodedTo());
      lz.Finish();
      SerializedAtLeast(lz.codes);
    }

    /** Starts the next block after `block`. */
    method NextBlock(ghost block: Block)
      requires Finished()
      requires block == Coded(lz.codes) || block == Stored(history[blockStart..CodedTo()])
      modifies `blockStart, `blocks, `closed, `open, lz, lz.codeBuf, lz.litCounts, lz.distCounts
      ensures closed == old(closed) + [old(open)] && open == [] && Turns() == old(Turns())
      ensures Valid() && lz.codes == [] && blockStart == CodedTo() && blocks == old(blocks) + [block]
      ensures lz.end == 1 && lz.totalBytes == 0
    {
      hide WindowOk, SavedAt, Reach, LzBuffer.Valid, DecodableBlocks, ExpandBlocks, CodedFrom, Compressor.ChainsOk, Parse, AllRecorded, AllTurns,
        Compressor.Turns;
      ReachBounds(history, blockStart, lz.codes, CodedTo());
      CloseBlock(history, blocks, blockStart, lz.codes, CodedTo(), block);
      CodedClose(history, blocks, since, sinceBlock, blockStart, lz.codes, CodedTo(), block);
      blocks := blocks + [block];
      blockStart := blockStart + lz.totalBytes;
      CloseTurns();
      lz.Reset();
    }

    /** The open turns are those of the new block. */
    ghost method CloseTurns()
      modifies `closed, `open
      ensures closed == old(closed) + [old(open)] && open == [] && Turns() == old(Turns()) && AllRecorded(options, []) == []
    {
      OneMoreClosed(closed, open);
      assert AllTurns(closed) + open + [] == AllTurns(closed) + open;
      closed, open := closed + [open], [];
    }

    /** An empty stored block stands for nothing. */
    ghost method AddEmptyBlock()
      requires Valid()
      modifies `blocks, `closed
      ensures Valid() && blocks == old(blocks) + [Stored([])] && closed == old(closed) + [[]] && Turns() == old(Turns())
    {
      hide WindowOk, SavedAt, Reach, LzBuffer.Valid, DecodableBlocks, ExpandBlocks, CodedFrom, Compressor.ChainsOk, Parse, AllRecorded, AllTurns;
      OneMoreBlock(blocks, Stored([]));
      CodedEmpty(history, blocks, since, sinceBlock, blockStart, lz.codes, CodedTo());
      blocks := blocks + [Stored([])];
      OneMoreClosed(closed, []);
      assert AllTurns(closed) + [] == AllTurns(closed);
      closed := closed + [[]];
    }

    /** At the end of the input nothing is saved, and everything was coded. */
    lemma {:induction false} NothingSavedAtTheEnd()
      requires Steady() && lookaheadSize == 0
      ensures savedMatchLen == 0 && CodedTo() == |history|
    {
    }

    /** A full flush forgets the chains and the dictionary: what follows is coded by itself. */
    method Forget()
      requires Valid() && lookaheadSize == 0 && lz.codes == [] && blockStart == CodedTo()
      modifies next, hash, `dictSize, `since, `sinceBlock
      ensures Valid() && dictSize == 0 && since == |history| && sinceBlock == |blocks|
      ensures (forall i | 0 <= i < next.Length :: next[i] == 0) && forall i | 0 <= i < hash.Length :: hash[i] == 0
    {
      hide Reach, Repeats, DecodableBlocks, ExpandBlocks, LzBuffer.Valid, CodesReach, CodedFrom, Chained, InWindow, Compressor.Traced;
      NothingSavedAtTheEnd();
      WipeChains();
      NothingInWindow(dict[..], history);
      dictSize := 0;
      since, sinceBlock := lookaheadPos, |blocks|;
      CodedNothing(history, blocks, since);
    }

    method WipeChains()
      requires Shape()
      modifies next, hash
      ensures Chained(next[..], hash[..], history, |history|, |history|)
      ensures (forall i | 0 <= i < next.Length :: next[i] == 0) && forall i | 0 <= i < hash.Length :: hash[i] == 0
    {
      hide Chained;
      forall i | 0 <= i < hash.Length {
        hash[i] := 0;
      }
      forall i | 0 <= i < next.Length {
        next[i] := 0;
      }
      NoChains(next[..], hash[..], history, |history|);
    }
  }

  lemma NothingInWindow(dict: seq<Byte>, history: seq<Byte>)
    requires |dict| == DICT_LENGTH
    ensures InWindow(dict, history, |history|)
  {
  }

  function Least(a: int, b: int): (m: int)
    ensures m == a || m == b
    ensures m <= a && m <= b
  {
    if a <= b then a else b
  }

  lemma {:induction false} TakeOne(src: seq<Byte>, from: nat, used: nat)
    requires from <= used < |src|
    ensures src[from..used + 1] == src[from..used] + [src[used]]
  {
  }

  lemma {:induction false} RepeatsBounds(history: seq<Byte>, at: nat, len: nat, dist: nat)
    requires Repeats(history, at, len, dist)
    ensures 1 <= dist <= at && at + len <= |history|
  {
  }

  lemma {:induction false} RepeatsGrows(history: seq<Byte>, more: seq<Byte>, at: nat, len: nat, dist: nat)
    requires Repeats(history, at, len, dist)
    ensures Repeats(history + more, at, len, dist)
  {
  }
}
