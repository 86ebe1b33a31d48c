/** The compressor's sliding dictionary: a 32 KiB ring whose first 257 bytes are repeated after its end, so
    that a match can be compared without wrapping. */
module LzWindow {
  import opened LzCodes

  const DICT_LENGTH := LZ_DICT_SIZE + MAX_MATCH_LEN - 1
  const HASH_SIZE := 32768

  type Word16 = x: int | 0 <= x < 0x10000

  /** The bytes of `history` from position `lo` on are in the ring, and repeated where they fall at its start. */
  ghost predicate InWindow(dict: seq<Byte>, history: seq<Byte>, lo: int) {
    && |dict| == DICT_LENGTH && 0 <= lo && |history| - lo <= LZ_DICT_SIZE
    && forall p | lo <= p < |history| :: RingHolds(dict, p, history[p])
  }

  ghost predicate RingHolds(dict: seq<Byte>, p: int, c: Byte)
    requires |dict| == DICT_LENGTH
  {
    && dict[p % LZ_DICT_SIZE] == c
    && (p % LZ_DICT_SIZE < MAX_MATCH_LEN - 1 ==> dict[LZ_DICT_SIZE + p % LZ_DICT_SIZE] == c)
  }

  /** The ring after byte number `p` was stored. */
  ghost function StoreAt(dict: seq<Byte>, p: nat, c: Byte): (r: seq<Byte>)
    requires |dict| == DICT_LENGTH
    ensures |r| == |dict|
  {
    var at := p % LZ_DICT_SIZE;
    var r := dict[at := c];
    if at < MAX_MATCH_LEN - 1 then r[LZ_DICT_SIZE + at := c] else r
  }

  lemma {:induction false} DifferentSlots(p: nat, q: nat)
    requires p != q && p - q < LZ_DICT_SIZE && q - p < LZ_DICT_SIZE
    ensures p % LZ_DICT_SIZE != q % LZ_DICT_SIZE
  {
  }

  /** Storing the next byte keeps every byte that is less than one ring length old. */
  lemma {:induction false} StoreKeeps(dict: seq<Byte>, history: seq<Byte>, lo: int, lo': int, c: Byte)
    requires InWindow(dict, history, lo) && lo <= lo' <= |history| && |history| + 1 - lo' <= LZ_DICT_SIZE
    ensures InWindow(StoreAt(dict, |history|, c), history + [c], lo')
  {
    var dict', history' := StoreAt(dict, |history|, c), history + [c];
    forall p | lo' <= p < |history'|
      ensures RingHolds(dict', p, history'[p])
    {
      if p < |history| {
        assert RingHolds(dict, p, history[p]);
        DifferentSlots(p, |history|);
      }
    }
  }

  /** Reading `i` bytes after position `p` without wrapping. */
  lemma {:induction false} ReadAhead(dict: seq<Byte>, history: seq<Byte>, lo: int, p: nat, i: nat)
    requires InWindow(dict, history, lo) && lo <= p && p + i < |history| && i < MAX_MATCH_LEN
    ensures p % LZ_DICT_SIZE + i < |dict| && dict[p % LZ_DICT_SIZE + i] == history[p + i]
  {
    assert RingHolds(dict, p + i, history[p + i]);
    var a := p % LZ_DICT_SIZE;
    if a + i < LZ_DICT_SIZE {
      assert (p + i) % LZ_DICT_SIZE == a + i;
    } else {
      assert (p + i) % LZ_DICT_SIZE == a + i - LZ_DICT_SIZE;
    }
  }

  /** A 16-bit position stored in a chain gives back the distance. */
  lemma {:induction false} ProbePosition(pos: nat, probe: Word16, dist: nat)
    requires dist == (pos - probe) % 0x10000 && dist <= pos
    ensures probe % LZ_DICT_SIZE == (pos - dist) % LZ_DICT_SIZE
  {
  }
}

/** The hash over three consecutive bytes. */
module LzHash {
  import opened LzCodes
  import opened LzWindow

  function HashStep(hash: bv32, c: bv32): (h: bv32)
    ensures h < 0x8000
  {
    ((hash << 5) ^ c) & 0x7FFF
  }

  function HashTwo(a: Byte, b: Byte): bv32 {
    ((a as bv32) << 5) ^ (b as bv32)
  }

  function HashThree(a: Byte, b: Byte, c: Byte): (h: bv32)
    ensures h < 0x8000
  {
    (((a as bv32) << 10) ^ ((b as bv32) << 5) ^ (c as bv32)) & 0x7FFF
  }

  lemma {:induction false} HashIndex(h: bv32)
    requires h < 0x8000
    ensures 0 <= h as int < HASH_SIZE
  {
  }
}
