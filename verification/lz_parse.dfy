/** The lazy parse as a relation: what is chosen at a position of the input, and what comes of it. */
module LzParse {
  import opened LzCodes
  import opened LzChains

  /** The options: greedy parsing, run-length matches only, no matches of five bytes or less, only static blocks,
      only raw blocks. */
  datatype Options = Options(greedy: bool, rleMatches: bool, filterMatches: bool, staticBlocks: bool, rawBlocks: bool)

  // ---------------------------------------------------------------- what the search offers

  /** The two bytes at the end of a match one longer than `len` agree at both positions. */
  ghost predicate AgreeAt(h: seq<Byte>, at: nat, p: int, len: nat) {
    && 0 <= p <= at && 1 <= len && at + len < |h|
    && h[p + len] == h[at + len] && h[p + len - 1] == h[at + len - 1]
  }

  /** The search tries link `i` for certain: one probe of the budget for each link, and three for each as long as no
      link before agrees with the lookahead at the end of the match to beat. */
  ghost predicate TriedAt(h: seq<Byte>, since: nat, at: nat, size: nat, probes: nat, least: nat, i: nat)
    requires since <= at && at + 2 < |h|
  {
    && Visible(h, since, at, size, i)
    && (i < probes
        || (i <= 3 * (probes - 1) && forall j: nat | 1 <= j < i :: !AgreeAt(h, at, ChainPos(h, since, at, j), least)))
  }

  /** The longest match that the links tried offer, if longer than `least`. */
  ghost predicate LongestAt(h: seq<Byte>, since: nat, at: nat, look: nat, size: nat, probes: nat, least: nat, dist: nat, len: nat)
    requires since <= at
  {
    && len >= least && (len == least ==> dist == 0)
    && (len > least ==> len <= look && 1 <= dist <= size && Repeats(h, at, len, dist))
    && (at + 2 < |h| ==> forall i: nat | i >= 1 && TriedAt(h, since, at, size, probes, least, i) ::
          NoLonger(h, at, look, at - ChainPos(h, since, at, i), len))
  }

  /** How far the lookahead continues the byte before it, if for three bytes at least. */
  ghost predicate LongestRunAt(h: seq<Byte>, at: nat, look: nat, dist: nat, len: nat) {
    if dist == 0 then len == 0 && NoLonger(h, at, look, 1, MIN_MATCH_LEN - 1)
    else dist == 1 && MIN_MATCH_LEN <= len <= look && Repeats(h, at, len, 1) && NoLonger(h, at, look, 1, len)
  }

  /** The match that the search offers: none for raw blocks, runs of one byte only, or the chain's. */
  ghost predicate OfferedAt(o: Options, h: seq<Byte>, since: nat, at: nat, look: nat, size: nat, probes: nat, least: nat,
                            dist: nat, len: nat)
    requires since <= at
  {
    if o.rawBlocks || (o.rleMatches && size == 0) then dist == 0 && len == least
    else if o.rleMatches then LongestRunAt(h, at, look, dist, len)
    else LongestAt(h, since, at, look, size, probes, least, dist, len)
  }

  /** Three bytes from far back, a distance that equals the place in the ring, and short matches if they are filtered
      are not worth their price. */
  predicate Worthless(o: Options, at: nat, dist: nat, len: nat) {
    (len == MIN_MATCH_LEN && dist >= 8 * 1024) || at % LZ_DICT_SIZE == dist || (o.filterMatches && len <= 5)
  }

  ghost predicate ChosenAt(o: Options, h: seq<Byte>, since: nat, at: nat, look: nat, size: nat, probes: nat, least: nat,
                           dist: nat, len: nat)
    requires since <= at
  {
    exists d: nat, l: nat ::
      OfferedAt(o, h, since, at, look, size, probes, least, d, l)
      && (if Worthless(o, at, d, l) then dist == len == 0 else dist == d && len == l)
  }

  // ---------------------------------------------------------------- what comes of it

  /** A match that waits for what the next position offers, and the byte it begins with; none if its length is zero. */
  datatype Saved = Saved(len: nat, dist: nat, lit: Byte)

  /** What is decided at a position: how much is known after it, where the window begins, what was saved, the byte there,
      and what is chosen. */
  datatype Turn = Turn(at: nat, look: nat, since: nat, saved: Saved, byte: Byte, dist: nat, len: nat)

  function ToBeat(saved: Saved): nat {
    if saved.len > 0 then saved.len else MIN_MATCH_LEN - 1
  }

  /** The bytes of the window: those since the last full flush, unless the lookahead needs their room. */
  function WindowSize(at: int, since: int, look: int): int {
    if at - since <= LZ_DICT_SIZE - look then at - since else LZ_DICT_SIZE - look
  }

  /** Matches are recorded at once. */
  predicate AtOnce(o: Options, len: nat) {
    o.greedy || o.rleMatches || len >= 128
  }

  /** A longer match replaces a saved one after a literal; a saved one that is not beaten is recorded. */
  function CodesOfTurn(o: Options, t: Turn): seq<Code> {
    if t.saved.len > 0 then
      if t.len > t.saved.len then [Literal(t.saved.lit)] + (if t.len >= 128 then [Match(t.len, t.dist)] else [])
      else [Match(t.saved.len, t.saved.dist)]
    else if t.dist == 0 then [Literal(t.byte)]
    else if AtOnce(o, t.len) then [Match(t.len, t.dist)]
    else []
  }

  function Move(o: Options, t: Turn): int {
    if t.saved.len > 0 then if t.len <= t.saved.len then t.saved.len - 1 else if t.len >= 128 then t.len else 1
    else if t.dist > 0 && AtOnce(o, t.len) then t.len
    else 1
  }

  function SavedAfter(o: Options, t: Turn): Saved {
    if t.saved.len > 0 then if t.saved.len < t.len < 128 then Saved(t.len, t.dist, t.byte) else Saved(0, 0, 0)
    else if t.dist > 0 && !AtOnce(o, t.len) then Saved(t.len, t.dist, t.byte)
    else Saved(0, 0, 0)
  }

  /** The budgets for short and for long matches to beat. */
  function Budget(probes0: nat, probes1: nat, least: nat): nat {
    if least >= 32 then probes1 else probes0
  }

  ghost predicate TurnOk(o: Options, probes0: nat, probes1: nat, h: seq<Byte>, t: Turn) {
    && t.since <= t.at && 1 <= t.look <= MAX_MATCH_LEN && t.at + t.look <= |h|
    && t.byte == h[t.at] && (t.saved.len > 0 ==> t.at > 0 && t.saved.lit == h[t.at - 1])
    && var least, size := ToBeat(t.saved), WindowSize(t.at, t.since, t.look);
       size >= 0 && ChosenAt(o, h[..t.at + t.look], t.since, t.at, t.look, size, Budget(probes0, probes1, least), least, t.dist, t.len)
  }

  /** The turns lead from the start to `at`, with this match saved. */
  ghost predicate Parse(o: Options, probes0: nat, probes1: nat, h: seq<Byte>, turns: seq<Turn>, at: int, saved: Saved) {
    if turns == [] then at == 0 && saved.len == 0
    else
      var t := turns[|turns| - 1];
      && TurnOk(o, probes0, probes1, h, t) && at == t.at + Move(o, t)
      && (if saved.len > 0 then saved == SavedAfter(o, t) else SavedAfter(o, t).len == 0)
      && Parse(o, probes0, probes1, h, turns[..|turns| - 1], t.at, t.saved)
  }

  /** The codes that the turns record. */
  ghost function AllRecorded(o: Options, turns: seq<Turn>): seq<Code> {
    if turns == [] then [] else AllRecorded(o, turns[..|turns| - 1]) + CodesOfTurn(o, turns[|turns| - 1])
  }

  /** The turns of all blocks. */
  ghost function AllTurns(blocks: seq<seq<Turn>>): seq<Turn> {
    if blocks == [] then [] else AllTurns(blocks[..|blocks| - 1]) + blocks[|blocks| - 1]
  }

  lemma {:induction false} OneMoreTurn(o: Options, probes0: nat, probes1: nat, h: seq<Byte>, turns: seq<Turn>, t: Turn, saved: Saved)
    requires Parse(o, probes0, probes1, h, turns, t.at, t.saved) && TurnOk(o, probes0, probes1, h, t)
    requires if saved.len > 0 then saved == SavedAfter(o, t) else SavedAfter(o, t).len == 0
    ensures Parse(o, probes0, probes1, h, turns + [t], t.at + Move(o, t), saved)
  {
    hide TurnOk, Move;
    assert (turns + [t])[..|turns|] == turns;
  }

  lemma RecordedOne(o: Options, turns: seq<Turn>, t: Turn)
    ensures AllRecorded(o, turns + [t]) == AllRecorded(o, turns) + CodesOfTurn(o, t)
  {
    assert (turns + [t])[..|turns|] == turns;
  }

  lemma OneMoreClosed(closed: seq<seq<Turn>>, open: seq<Turn>)
    ensures AllTurns(closed + [open]) == AllTurns(closed) + open
  {
    assert (closed + [open])[..|closed|] == closed;
  }

  /** If nothing waits, nothing is left to record. */
  lemma ParseEnds(o: Options, probes0: nat, probes1: nat, h: seq<Byte>, turns: seq<Turn>, at: int, saved: Saved)
    requires Parse(o, probes0, probes1, h, turns, at, saved) && saved.len == 0
    ensures Parse(o, probes0, probes1, h, turns, at, Saved(0, 0, 0))
  {
  }

  /** More input does not disturb what was decided. */
  lemma {:induction false} ParseGrows(o: Options, probes0: nat, probes1: nat, h: seq<Byte>, more: seq<Byte>, turns: seq<Turn>,
                                      at: int, saved: Saved)
    requires Parse(o, probes0, probes1, h, turns, at, saved)
    ensures Parse(o, probes0, probes1, h + more, turns, at, saved)
  {
    hide ChosenAt;
    if turns != [] {
      var t := turns[|turns| - 1];
      assert (h + more)[..t.at + t.look] == h[..t.at + t.look];
      ParseGrows(o, probes0, probes1, h, more, turns[..|turns| - 1], t.at, t.saved);
    }
  }
}
