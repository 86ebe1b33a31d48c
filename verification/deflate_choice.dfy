/** How the decisions are cut into blocks, and which form a block is written in. */
module DeflateChoice {
  import opened LzCodes
  import opened LzCodeBuffer
  import opened LzBuffers
  import opened LzParse
  import opened BitStream
  import opened DeflateBlock
  import opened DeflateStream

  // ---------------------------------------------------------------- where a block ends

  /** What a block is recorded for before it is closed on its own. */
  const ENOUGH := 31 * 1024

  /** The bytes that codes take while they are being recorded: a flag byte for every eight, one of them open. */
  ghost function Taken(cs: seq<Code>): nat {
    1 + ItemBytes(cs) + |cs| / 8
  }

  /** Three bytes for a match and one for a literal. */
  ghost function ItemBytes(cs: seq<Code>): nat {
    if cs == [] then 0 else ItemBytes(cs[..|cs| - 1]) + (if cs[|cs| - 1].Match? then 3 else 1)
  }

  /** The codes are worth a block of their own: their buffer is full, or they stand for enough bytes and save little. */
  ghost predicate Worth(o: Options, cs: seq<Code>) {
    || Taken(cs) > CODE_BUF_SIZE - 8
    || (Span(cs) > ENOUGH && (Taken(cs) * 115 / 128 >= Span(cs) || o.rawBlocks))
  }

  lemma {:induction false} ItemBytesExact(cs: seq<Code>)
    requires AllExpressible(cs)
    ensures ItemBytes(cs) == |Items(cs)|
  {
    if cs != [] {
      ItemBytesExact(cs[..|cs| - 1]);
    }
  }

  /** The buffer is exactly as long as that. */
  lemma {:induction false} TakenExactly(buf: seq<int>, flagsPos: nat, left: nat, cs: seq<Code>, full: nat)
    requires Recording(buf, flagsPos, left, cs, full)
    ensures |buf| == Taken(cs)
  {
    hide Serialized, Items, Flags;
    ItemBytesExact(cs);
    ItemsAndFlagsExactly(cs[..full]);
    ItemsConcat(cs[..full], cs[full..]);
    assert cs == cs[..full] + cs[full..];
    assert |buf| == flagsPos + 1 + |buf[flagsPos + 1..]|;
  }

  /** A full buffer stands for enough bytes, too. */
  lemma {:induction false} WorthIsEnough(o: Options, cs: seq<Code>)
    requires AllExpressible(cs) && Worth(o, cs)
    ensures Span(cs) > ENOUGH
  {
    ItemBytesExact(cs);
    ItemsSpan(cs);
  }

  // ---------------------------------------------------------------- the form of a block

  /** The compressed form: static codes if asked for and for few bytes, codes of its own otherwise. */
  ghost predicate CompressedForm(o: Options, fs: seq<Field>, codes: seq<Code>) {
    if o.staticBlocks || Span(codes) < 48 then StaticBlock(fs, codes) else ThriftyBlock(fs, codes)
  }

  /** The fields, put at bit `at`, take no fewer bytes than what the codes stand for. */
  ghost predicate NoShorter(at: nat, fs: seq<Field>, codes: seq<Code>) {
    Span(codes) > 0 && (at + Width(fs)) / 8 - at / 8 + 1 >= Span(codes)
  }

  /** The codes in compressed form; or the bytes, if they are still in the window, as the options ask or if a compressed
      form is no shorter. */
  ghost predicate ChosenBody(o: Options, inWindow: bool, at: nat, body: seq<Field>, block: Block, codes: seq<Code>) {
    if block.Coded? then
      block.codes == codes && CompressedForm(o, body, codes) && !(inWindow && (o.rawBlocks || NoShorter(at, body, codes)))
    else
      inWindow && (o.rawBlocks || exists other: seq<Field> :: CompressedForm(o, other, codes) && NoShorter(at, other, codes))
  }

  /** How far the codes reach after a decision. */
  function CodedAfter(o: Options, t: Turn): int {
    t.at + Move(o, t) - (if SavedAfter(o, t).len > 0 then 1 else 0)
  }

  /** All bytes of the block, and all bytes known after them, fit the window. */
  ghost predicate StillThere(o: Options, turns: seq<Turn>) {
    turns == []
    || var t := turns[|turns| - 1];
       t.at + t.look - (CodedAfter(o, t) - Span(AllRecorded(o, turns))) <= LZ_DICT_SIZE
  }

  /** The block for these turns, at bit `at`, is in the form that the compressor chooses. */
  ghost predicate ChosenForm(o: Options, at: nat, part: seq<Field>, block: Block, turns: seq<Turn>) {
    |part| > 0 && ChosenBody(o, StillThere(o, turns), at + 1, part[1..], block, AllRecorded(o, turns))
  }

  /** No earlier turn completed a block. */
  ghost predicate Early(o: Options, turns: seq<Turn>) {
    forall k | 0 <= k < |turns| :: !Worth(o, AllRecorded(o, turns[..k]))
  }

  /** The turns make a block, as soon as they are worth one or as the input ends. */
  ghost predicate BlockCut(o: Options, at: nat, part: seq<Field>, block: Block, turns: seq<Turn>, ended: bool) {
    ChosenForm(o, at, part, block, turns) && Early(o, turns) && Worth(o, AllRecorded(o, turns)) == !ended
  }

  /** Blocks `from` to `to` were closed as soon as they were worth it. */
  ghost predicate CutFrom(o: Options, from: nat, to: nat, parts: seq<seq<Field>>, blocks: seq<Block>, closed: seq<seq<Turn>>) {
    && from <= to <= |parts| && |parts| == |blocks| == |closed|
    && forall i | from <= i < to :: BlockCut(o, Width(Flatten(parts[..i])), parts[i], blocks[i], closed[i], false)
  }

  /** Further blocks do not change what was cut. */
  lemma {:induction false} CutGrows(o: Options, from: nat, to: nat, parts: seq<seq<Field>>, blocks: seq<Block>, closed: seq<seq<Turn>>,
                                    parts': seq<seq<Field>>, blocks': seq<Block>, closed': seq<seq<Turn>>)
    requires CutFrom(o, from, to, parts, blocks, closed)
    requires parts <= parts' && blocks <= blocks' && closed <= closed' && |parts'| == |blocks'| == |closed'|
    ensures CutFrom(o, from, to, parts', blocks', closed')
  {
    hide BlockCut, Width, Flatten;
    forall i | from <= i < to
      ensures BlockCut(o, Width(Flatten(parts'[..i])), parts'[i], blocks'[i], closed'[i], false)
    {
      assert parts'[..i] == parts[..i];
    }
  }

  lemma {:induction false} CutOne(o: Options, from: nat, parts: seq<seq<Field>>, blocks: seq<Block>, closed: seq<seq<Turn>>,
                                  part: seq<Field>, block: Block, turns: seq<Turn>)
    requires CutFrom(o, from, |parts|, parts, blocks, closed)
    requires BlockCut(o, Width(Flatten(parts)), part, block, turns, false)
    ensures CutFrom(o, from, |parts| + 1, parts + [part], blocks + [block], closed + [turns])
  {
    hide BlockCut, Width, Flatten;
    CutGrows(o, from, |parts|, parts, blocks, closed, parts + [part], blocks + [block], closed + [turns]);
    assert (parts + [part])[..|parts|] == parts;
  }

  // ---------------------------------------------------------------- a whole run

  /** From turn `first` on the lookahead is as long as a match can be, or reaches to the end of what was `given`; and
      nothing was flushed. */
  ghost predicate FarSighted(turns: seq<Turn>, first: nat, since: nat, given: nat) {
    && first <= |turns|
    && forall i | first <= i < |turns| ::
         turns[i].since == since && (turns[i].look == MAX_MATCH_LEN || turns[i].at + turns[i].look == given)
  }

  /** The bytes are what lazy parsing with these options makes of the data: every turn chooses the longest match that
      the search offers, blocks are cut as soon as they are worth it, and each is in its chosen form. */
  ghost predicate CompressedAs(o: Options, probes0: nat, probes1: nat, bytes: seq<Byte>, data: seq<Byte>,
                               parts: seq<seq<Field>>, blocks: seq<Block>, closed: seq<seq<Turn>>)
  {
    && DeflatedAs(bytes, data, parts, blocks) && |closed| == |blocks| > 0
    && Parse(o, probes0, probes1, data, AllTurns(closed), |data|, Saved(0, 0, 0))
    && FarSighted(AllTurns(closed), 0, 0, |data|)
    && var n := |blocks| - 1;
       CutFrom(o, 0, n, parts, blocks, closed)
       && BlockCut(o, Width(Flatten(parts[..n])), parts[n], blocks[n], closed[n], true)
  }

  ghost predicate Compressed(o: Options, probes0: nat, probes1: nat, bytes: seq<Byte>, data: seq<Byte>) {
    exists parts: seq<seq<Field>>, blocks: seq<Block>, closed: seq<seq<Turn>> ::
      CompressedAs(o, probes0, probes1, bytes, data, parts, blocks, closed)
  }
}
