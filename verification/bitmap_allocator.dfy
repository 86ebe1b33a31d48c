/** The bitmap allocator: one bit for each cell, most significant bit first, set while the cell is free. */
module BitmapAllocator {
  import opened Powers
  import opened Bits
  import opened WordBits

  /** The `k`-th most significant bit of a word. */
  predicate CellBit(w: Word, k: nat)
    requires k < 32
  {
    TestBit(w, 31 - k)
  }

  /** Whether cell `k` is free. */
  ghost predicate IsFree(words: seq<Word>, k: nat) {
    k / 32 < |words| && CellBit(words[k / 32], k % 32)
  }

  /** The cells from `offset` on, `size` of them, as far as they exist, become free or taken; no other cell changes. */
  ghost predicate Filled(before: seq<Word>, after: seq<Word>, offset: nat, size: nat, free: bool) {
    && |after| == |before|
    && forall k: nat | k < 32 * |before| :: IsFree(after, k) == if offset <= k < offset + size then free else IsFree(before, k)
  }

  // ---------------------------------------------------------------- masks

  /** The mask has ones from bit `s` to bit `e`, counted from the most significant. */
  ghost predicate MaskIs(mask: Word, s: nat, e: nat) {
    forall k: nat | k < 32 :: CellBit(mask, k) == (s <= k < e)
  }

  const ALL_ONES: Word := 0xFFFFFFFF

  /** Ones from the `s`-th most significant bit on. */
  lemma {:induction false} TailMask(s: nat)
    requires s <= 32
    ensures MaskIs(ShiftRight(ALL_ONES, s), s, 32)
  {
    hide TestBit;
    WordPower();
    forall k: nat | k < 32
      ensures CellBit(ShiftRight(ALL_ONES, s), k) == (k >= s)
    {
      ShiftBit(ALL_ONES, s, 31 - k);
      OnesBit(32, 31 - k + s);
    }
  }

  /** Ones before the `n`-th most significant bit. */
  lemma {:induction false} HeadMask(n: nat)
    requires n <= 32
    ensures MaskIs(Complement(ShiftRight(ALL_ONES, n)), 0, n)
  {
    hide TestBit, ShiftRight;
    WordPower();
    TailMask(n);
    var tail := ShiftRight(ALL_ONES, n);
    forall k: nat | k < 32
      ensures CellBit(Complement(tail), k) == (k < n)
    {
      NotBit(tail, 32, 31 - k);
      assert CellBit(tail, k) == (k >= n);
    }
  }

  /** `n` ones from the `s`-th most significant bit on. */
  lemma {:induction false} RangeMask(s: nat, n: nat)
    requires s + n <= 32
    ensures MaskIs(ShiftRight(Complement(ShiftRight(ALL_ONES, n)), s), s, s + n)
  {
    hide TestBit;
    var head := Complement(ShiftRight(ALL_ONES, n));
    HeadMask(n);
    WordPower();
    forall k: nat | k < 32
      ensures CellBit(ShiftRight(head, s), k) == (s <= k < s + n)
    {
      ShiftBit(head, s, 31 - k);
      if k >= s {
        assert CellBit(head, k - s) == (k - s < n);
      } else {
        NoBitAbove(head, 32, 31 - k + s);
      }
    }
  }

  lemma {:induction false} NoBitAbove(x: nat, n: nat, k: nat)
    requires x < Pow2(n) && k >= n
    ensures !TestBit(x, k)
  {
    Pow2Monotone(n, k);
    DivModUnique(x, Pow2(k), 0, x);
  }

  /** A word with the masked bits set or cleared. */
  function Masked(w: Word, mask: Word, free: bool): Word {
    if free then Or(w, mask) else AndNot(w, mask)
  }

  lemma {:induction false} MaskedBit(w: Word, mask: Word, free: bool, k: nat)
    requires k < 32
    ensures CellBit(Masked(w, mask, free), k) == if CellBit(mask, k) then free else CellBit(w, k)
  {
    MergeBit(w, mask, free, 32, 31 - k);
  }

  // ---------------------------------------------------------------- filling

  lemma {:induction false} CellOf(k: nat)
    ensures k == 32 * (k / 32) + k % 32
  {
  }

  /** After a word was masked, its cells from `s` to `e` are filled. */
  lemma {:induction false} FillWord(before: seq<Word>, words: seq<Word>, i: nat, mask: Word, s: nat, e: nat, offset: nat, done: nat, free: bool)
    requires i < |words| && s <= e <= 32 && MaskIs(mask, s, e)
    requires Filled(before, words, offset, done, free) && 32 * i + s == offset + done
    ensures Filled(before, words[i := Masked(words[i], mask, free)], offset, done + (e - s), free)
  {
    hide CellBit, Masked;
    var after := words[i := Masked(words[i], mask, free)];
    forall k: nat | k < 32 * |before|
      ensures IsFree(after, k) == if offset <= k < offset + (done + (e - s)) then free else IsFree(before, k)
    {
      CellOf(k);
      assert IsFree(words, k) == if offset <= k < offset + done then free else IsFree(before, k);
      MaskedCell(words, i, mask, free, k, s, e);
    }
  }

  lemma {:induction false} MaskedCell(words: seq<Word>, i: nat, mask: Word, free: bool, k: nat, s: nat, e: nat)
    requires i < |words| && MaskIs(mask, s, e) && s <= e <= 32 && k < 32 * |words|
    ensures IsFree(words[i := Masked(words[i], mask, free)], k)
         == if 32 * i + s <= k < 32 * i + e then free else IsFree(words, k)
  {
    hide CellBit, Masked;
    CellOf(k);
    if k / 32 == i {
      MaskedBit(words[i], mask, free, k % 32);
      assert CellBit(mask, k % 32) == (s <= k % 32 < e);
    }
  }

  lemma {:induction false} NothingFilled(words: seq<Word>, offset: nat, free: bool)
    ensures Filled(words, words, offset, 0, free)
  {
  }

  /** Cells beyond the last word do not exist. */
  lemma {:induction false} FilledToTheEnd(before: seq<Word>, after: seq<Word>, offset: nat, done: nat, size: nat, free: bool)
    requires Filled(before, after, offset, done, free) && done <= size && offset + done >= 32 * |before|
    ensures Filled(before, after, offset, size, free)
  {
    forall k: nat | k < 32 * |before|
      ensures IsFree(after, k) == if offset <= k < offset + size then free else IsFree(before, k)
    {
      assert IsFree(after, k) == if offset <= k < offset + done then free else IsFree(before, k);
    }
  }

  class Bitmap {
    var words: seq<Word>

    /** All cells of whole words, free. */
    constructor (totalBits: nat)
      ensures |words| == (totalBits + 31) / 32 && forall k: nat | k < 32 * |words| :: IsFree(words, k)
    {
      var count := totalBits / 32 + (if totalBits % 32 != 0 then 1 else 0);
      words := seq(count, _ => ALL_ONES);
      new;
      forall k: nat | k < 32 * |words|
        ensures IsFree(words, k)
      {
        WordPower();
        OnesBit(32, 31 - k % 32);
      }
    }

    /** Grows with free cells, or shrinks. */
    method SetMaximum(totalBits: nat)
      modifies this
      ensures |words| == (totalBits + 31) / 32
      ensures forall k: nat | k < 32 * |words| :: IsFree(words, k) == if k < 32 * |old(words)| then IsFree(old(words), k) else true
    {
      var before, after := |words|, totalBits / 32 + (if totalBits % 32 != 0 then 1 else 0);
      ghost var words0 := words;
      words := if after <= before then words[..after] else words + seq(after - before, _ => ALL_ONES);
      forall k: nat | k < 32 * |words|
        ensures IsFree(words, k) == if k < 32 * |words0| then IsFree(words0, k) else true
      {
        WordPower();
        OnesBit(32, 31 - k % 32);
      }
    }

    /** Frees or takes a range of cells, word by word. The result counts the cells from the start of the first
        word, so it is the number of cells that exist in the range only under the last condition. */
    method ForceFill(offset: nat, size: nat, free: bool) returns (count: nat)
      requires offset / 32 < |words|
      modifies this
      ensures Filled(old(words), words, offset, size, free)
      ensures count == if size <= 32 * |words| - offset % 32 then size else 32 * |words| - offset % 32
      ensures var existing: nat := if offset + size <= 32 * |words| then size else 32 * |words| - offset;
              count >= existing && (count == existing <==> offset < 32 || offset + size <= 32 * |words|)
    {
      var word := offset / 32;
      var setBit := offset % 32;
      var endBit: int := setBit + size;
      count := if size <= |words| * 32 - setBit then size else |words| * 32 - setBit;
      if endBit < 32 {
        FillInside(word, setBit, size, free);
        return;
      }
      FillAcross(word, setBit, size, free);
    }

    /** The range lies inside one word. */
    method FillInside(word: nat, setBit: nat, size: nat, free: bool)
      requires word < |words| && setBit + size < 32
      modifies this
      ensures Filled(old(words), words, 32 * word + setBit, size, free)
    {
      hide Filled, MaskIs, ShiftRight, Complement, Masked;
      var mask := ShiftRight(Complement(ShiftRight(ALL_ONES, size)), setBit);
      RangeMask(setBit, size);
      NothingFilled(words, 32 * word + setBit, free);
      FillWord(words, words, word, mask, setBit, setBit + size, 32 * word + setBit, 0, free);
      words := words[word := Masked(words[word], mask, free)];
    }

    /** The range reaches the end of its first word or goes beyond. */
    method FillAcross(first: nat, setBit: nat, size: nat, free: bool)
      requires first < |words| && setBit < 32 <= setBit + size
      modifies this
      ensures Filled(old(words), words, 32 * first + setBit, size, free)
    {
      hide Filled, MaskIs, ShiftRight, Complement, Masked;
      ghost var offset: nat, done: nat := 32 * first + setBit, 0;
      ghost var words0 := words;
      var word: nat, endBit: int := first, setBit + size;
      var mask := ShiftRight(ALL_ONES, setBit);
      ghost var s: nat, e: nat := setBit, 32;
      TailMask(setBit);
      NothingFilled(words, offset, free);
      FilledKeeps(words0, words, offset, 0, free);
      while endBit > 0 && word != |words|
        invariant first <= word <= |words| == |words0| && Filled(words0, words, offset, done, free)
        invariant done <= size && endBit == offset + size - 32 * word
        invariant endBit > 0 ==> 32 * word + s == offset + done
        invariant endBit > 0 ==> s <= e == (if endBit < 32 then endBit else 32)
        invariant endBit > 0 ==> MaskIs(mask, s, e)
        invariant endBit <= 0 ==> done == size
        decreases |words| - word
      {
        FillWord(words0, words, word, mask, s, e, offset, done, free);
        words := words[word := Masked(words[word], mask, free)];
        done := done + (e - s);
        word := word + 1;
        mask := ALL_ONES;
        endBit := endBit - 32;
        s := 0;
        e := if 0 <= endBit < 32 then endBit else 32;
        if 0 <= endBit < 32 {
          mask := Complement(ShiftRight(mask, endBit));
        }
        NextMask(mask, endBit, e);
      }
      if endBit > 0 {
        FilledToTheEnd(words0, words, offset, done, size, free);
      }
    }

    /** Frees a range of cells. */
    method Free(offset: nat, size: nat)
      requires offset / 32 < |words|
      modifies this
      ensures Filled(old(words), words, offset, size, true)
    {
      var count := ForceFill(offset, size, true);
    }

    /** Takes the first range of free cells that is long enough, but does not see a range that starts at the last
        cell of a word; -1 if there is none. */
    method AllocateFrom(size: nat) returns (offset: int, granted: nat)
      requires |words| > 0
      modifies this
      ensures offset == -1 <==> !exists s: nat :: Found(old(words), s, Need(size))
      ensures offset == -1 <==> AllUnseen(old(words), Need(size))
      ensures offset == -1 ==> words == old(words) && granted == size
      ensures offset != -1 ==>
                && offset >= 0 && granted == size && FirstFound(old(words), offset, Need(size))
                && Filled(old(words), words, offset, size, false)
    {
      hide IsFree, Found, NoneBelow, Filled, CellBit, TestBit, AllUnseen;
      UnseenOrFound(words, Need(size));
      var word := 0;
      NothingBelowZero(words, Need(size));
      while word < |words|
        invariant 0 <= word <= |words| && words == old(words) && NoneBelow(words, 32 * word, Need(size))
      {
        var wv := words[word];
        if wv != 0 {
          var start, length;
          start, length, word := SearchWord(word, size);
          if length >= Need(size) {
            RunFound(words, start, length, Need(size));
            offset := start;
            RangeExists(words, start, size);
            granted := ForceFill(start, size, false);
            return;
          }
        } else {
          ZeroWord(words, word, Need(size));
        }
        word := word + 1;
      }
      NoneAtAll(words, Need(size));
      offset, granted := -1, size;
    }

    /** Looks for a long enough run that starts in the given word; the search may move on to later words. */
    method SearchWord(from: nat, size: nat) returns (start: nat, length: nat, word: nat)
      requires from < |words| && NoneBelow(words, 32 * from, Need(size))
      ensures from <= word < |words|
      ensures length >= Need(size) ==>
                FreeRun(words, start, length) && start % 32 != 31 && NoneBelow(words, start, Need(size))
      ensures length < Need(size) ==> NoneBelow(words, 32 * (word + 1), Need(size))
    {
      hide IsFree, Found, NoneBelow, CellBit, TestBit, FreeRun;
      var cursor: int := 31;
      word, start, length := from, 0, 0;
      while cursor > 0
        invariant -2 <= cursor <= 31 && from <= word < |words|
        invariant NoneBelow(words, 32 * word + 31 - cursor, Need(size))
        invariant length < Need(size)
        decreases |words| - word, cursor
      {
        var at := 32 * word + 31 - cursor;
        CellPosition(words, word, 31 - cursor);
        if CellBit(words[word], 31 - cursor) {
          start := at;
          length, word, cursor := MeasureRun(word, cursor);
          if length >= Need(size) {
            return;
          }
          ShortRun(words, start, length, Need(size));
        } else {
          NotFreeHere(words, at, Need(size));
        }
        cursor := cursor - 1;
      }
      LastCell(words, 32 * word + 31 - cursor, word, Need(size));
    }

    /** How many cells from the given one on are free. */
    method MeasureRun(from: nat, start: nat) returns (length: nat, word: nat, cursor: int)
      requires from < |words| && start <= 31 && IsFree(words, 32 * from + 31 - start)
      ensures from <= word < |words| && -1 <= cursor <= 31 && (cursor == -1 ==> word == |words| - 1)
      ensures 32 * word + 31 - cursor == 32 * from + 31 - start + length && length > 0
      ensures FreeRun(words, 32 * from + 31 - start, length)
      ensures 32 * word + 31 - cursor < 32 * |words| ==> !IsFree(words, 32 * word + 31 - cursor)
      ensures word == from ==> cursor < start
    {
      hide IsFree, CellBit, TestBit, FreeRun;
      length, word, cursor := 0, from, start;
      ghost var first: nat := 32 * from + 31 - start;
      EmptyRun(words, first);
      CellPosition(words, word, 31 - cursor);
      while cursor >= 0 && CellBit(words[word], 31 - cursor)
        invariant from <= word < |words| && -1 <= cursor <= 31 && (cursor == -1 ==> word == |words| - 1)
        invariant 32 * word + 31 - cursor == first + length && FreeRun(words, first, length)
        invariant length == 0 ==> word == from && cursor == start
        invariant word == from ==> cursor <= start && (length > 0 ==> cursor < start)
        decreases |words| - word, cursor
      {
        CellPosition(words, word, 31 - cursor);
        LongerRun(words, first, length);
        length := length + 1;
        cursor := cursor - 1;
        if cursor < 0 && word + 1 < |words| {
          cursor := 31;
          word := word + 1;
        }
      }
      if cursor >= 0 {
        CellPosition(words, word, 31 - cursor);
      }
    }
  }

  /** Even for a request of no cells one free cell is looked for. */
  function Need(size: nat): nat {
    if size == 0 then 1 else size
  }

  ghost predicate FreeRun(words: seq<Word>, start: nat, length: nat) {
    forall k: nat | start <= k < start + length :: IsFree(words, k)
  }

  /** A range the search can find. */
  ghost predicate Found(words: seq<Word>, start: nat, need: nat) {
    start % 32 != 31 && FreeRun(words, start, need)
  }

  ghost predicate NoneBelow(words: seq<Word>, upto: int, need: nat) {
    forall s: nat | s < upto :: !Found(words, s, need)
  }

  ghost predicate FirstFound(words: seq<Word>, start: nat, need: nat) {
    Found(words, start, need) && NoneBelow(words, start, need)
  }

  // ---------------------------------------------------------------- free cells that are not found

  /** Every long enough run of free cells starts at the last cell of a word. */
  ghost predicate AllUnseen(words: seq<Word>, need: nat) {
    forall s: nat | FreeRun(words, s, need) :: s % 32 == 31
  }

  lemma UnseenOrFound(words: seq<Word>, need: nat)
    ensures AllUnseen(words, need) <==> !exists s: nat :: Found(words, s, need)
  {
    hide FreeRun;
    if AllUnseen(words, need) {
      assert forall s: nat :: Found(words, s, need) ==> FreeRun(words, s, need);
    } else {
      var s: nat :| FreeRun(words, s, need) && s % 32 != 31;
      assert Found(words, s, need);
    }
  }

  /** One free cell, the last of its word: no range is found. */
  lemma {:induction false} LastCellUnseen()
    ensures FreeRun([1], 31, 1) && !exists s: nat :: Found([1], s, 1)
  {
    hide TestBit;
    OneBits();
    forall s: nat
      ensures !Found([1], s, 1)
    {
      assert FreeRun([1], s, 1) ==> IsFree([1], s);
    }
  }

  /** Two free cells across the end of a word: no range of two is found. */
  lemma {:induction false} CrossingUnseen()
    ensures FreeRun([1, 0x8000_0000], 31, 2) && !exists s: nat :: Found([1, 0x8000_0000], s, 2)
  {
    hide TestBit;
    OneBits();
    TopBits();
    var words: seq<Word> := [1, 0x8000_0000];
    forall s: nat
      ensures !Found(words, s, 2)
    {
      assert FreeRun(words, s, 2) ==> IsFree(words, s) && IsFree(words, s + 1);
    }
  }

  lemma {:induction false} OneBits()
    ensures forall k: nat | k < 32 :: CellBit(1, k) == (k == 31)
  {
    forall k: nat | k < 32
      ensures CellBit(1, k) == (k == 31)
    {
      assert Pow2(1) == 2;
      OnesBit(1, 31 - k);
    }
  }

  lemma {:induction false} TopBits()
    ensures forall k: nat | k < 32 :: CellBit(0x8000_0000, k) == (k == 0)
  {
    hide TestBit, Pow2;
    TopPower();
    forall k: nat | k < 32
      ensures CellBit(0x8000_0000, k) == (k == 0)
    {
      HighBit(31, 31 - k);
    }
  }

  lemma TopPower()
    ensures Pow2(31) == 0x8000_0000
  {
    hide Pow2;
    Pow2Values();
    Pow2Add(16, 15);
  }

  /** A power of two has one bit. */
  lemma {:induction false} HighBit(m: nat, k: nat)
    ensures TestBit(Pow2(m), k) == (k == m)
    decreases k
  {
    hide TestBit, Pow2;
    Half(Pow2(m), if k > 0 then k - 1 else 0);
    if m == 0 {
      SingleBit(k);
    } else {
      Pow2Double(m - 1);
      if k > 0 {
        HighBit(m - 1, k - 1);
      }
    }
  }

  lemma {:induction false} SingleBit(k: nat)
    ensures Pow2(0) == 1 && TestBit(1, k) == (k == 0)
  {
    assert Pow2(1) == 2;
    OnesBit(1, k);
  }

  /** Taking 33 cells of which 32 exist reports 33. */
  method OvercountedFill() returns (count: nat, existing: nat)
    ensures existing == 32 && count == 33
  {
    var bitmap := new Bitmap(64);
    count := bitmap.ForceFill(32, 33, false);
    existing := 32 * |bitmap.words| - 32;
  }

  lemma {:induction false} NothingBelowZero(words: seq<Word>, need: nat)
    ensures NoneBelow(words, 0, need)
  {
  }

  lemma {:induction false} CellPosition(words: seq<Word>, word: nat, bit: nat)
    requires word < |words| && bit < 32
    ensures IsFree(words, 32 * word + bit) == CellBit(words[word], bit)
  {
    DivModUnique(32 * word + bit, 32, word, bit);
  }

  lemma {:induction false} NotFreeHere(words: seq<Word>, at: nat, need: nat)
    requires NoneBelow(words, at, need) && !IsFree(words, at) && need > 0
    ensures NoneBelow(words, at + 1, need)
  {
    assert Found(words, at, need) ==> IsFree(words, at);
  }

  /** A run that is too short holds no range, and neither does the cell behind it. */
  lemma {:induction false} ShortRun(words: seq<Word>, start: nat, length: nat, need: nat)
    requires NoneBelow(words, start, need) && length < need
    requires start + length < 32 * |words| ==> !IsFree(words, start + length)
    ensures NoneBelow(words, start + length + 1, need)
  {
    if start + length >= 32 * |words| {
      NoCellBeyond(words, start + length);
    }
    forall s: nat | s < start + length + 1
      ensures !Found(words, s, need)
    {
      assert s >= start && FreeRun(words, s, need) ==> IsFree(words, start + length);
    }
  }

  lemma {:induction false} NoCellBeyond(words: seq<Word>, k: nat)
    requires k >= 32 * |words|
    ensures !IsFree(words, k)
  {
  }

  lemma {:induction false} RunFound(words: seq<Word>, start: nat, length: nat, need: nat)
    requires FreeRun(words, start, length) && start % 32 != 31 && NoneBelow(words, start, need) && length >= need
    ensures FirstFound(words, start, need)
  {
  }

  /** A range of free cells exists as a whole. */
  lemma {:induction false} RangeExists(words: seq<Word>, start: nat, size: nat)
    requires FreeRun(words, start, Need(size))
    ensures start / 32 < |words| && start + size <= 32 * |words|
  {
    assert IsFree(words, start);
    CellOf(start);
    if size > 0 {
      assert IsFree(words, start + size - 1);
      CellOf(start + size - 1);
    }
  }

  lemma {:induction false} ZeroWord(words: seq<Word>, word: nat, need: nat)
    requires word < |words| && words[word] == 0 && NoneBelow(words, 32 * word, need) && need > 0
    ensures NoneBelow(words, 32 * (word + 1), need)
  {
    forall s: nat | s < 32 * (word + 1)
      ensures !Found(words, s, need)
    {
      if s >= 32 * word {
        CellPosition(words, word, s - 32 * word);
        DivModUnique(0, Pow2(31 - (s - 32 * word)), 0, 0);
        assert !IsFree(words, s);
      }
    }
  }

  /** The last cell of a word is passed over as a start. */
  lemma {:induction false} LastCell(words: seq<Word>, at: nat, word: nat, need: nat)
    requires NoneBelow(words, at, need) && 32 * word + 31 <= at <= 32 * word + 33
    ensures NoneBelow(words, 32 * (word + 1), need)
  {
    DivModUnique(32 * word + 31, 32, word, 31);
  }

  lemma {:induction false} NoneAtAll(words: seq<Word>, need: nat)
    requires NoneBelow(words, 32 * |words|, need) && need > 0
    ensures !exists s: nat :: Found(words, s, need)
  {
    forall s: nat
      ensures !Found(words, s, need)
    {
      if s >= 32 * |words| {
        NoCellBeyond(words, s);
        assert Found(words, s, need) ==> IsFree(words, s);
      }
    }
  }

  lemma {:induction false} EmptyRun(words: seq<Word>, first: nat)
    ensures FreeRun(words, first, 0)
  {
  }

  lemma {:induction false} LongerRun(words: seq<Word>, first: nat, length: nat)
    requires FreeRun(words, first, length) && IsFree(words, first + length)
    ensures FreeRun(words, first, length + 1)
  {
  }

  lemma {:induction false} FilledKeeps(before: seq<Word>, after: seq<Word>, offset: nat, size: nat, free: bool)
    requires Filled(before, after, offset, size, free)
    ensures |after| == |before|
  {
  }

  /** The mask for a whole word, or for the first bits of the last one. */
  lemma {:induction false} NextMask(mask: Word, endBit: int, e: nat)
    requires e == if 0 <= endBit < 32 then endBit else 32
    requires mask == if 0 <= endBit < 32 then Complement(ShiftRight(ALL_ONES, endBit)) else ALL_ONES
    ensures MaskIs(mask, 0, e)
  {
    hide TestBit, ShiftRight, Complement;
    if 0 <= endBit < 32 {
      HeadMask(endBit);
    } else {
      WordPower();
      forall k: nat | k < 32
        ensures CellBit(mask, k)
      {
        OnesBit(32, 31 - k);
      }
    }
  }

  // ---------------------------------------------------------------- runs of the allocator

  datatype Range = Range(offset: nat, size: nat)

  ghost predicate Apart(a: Range, b: Range) {
    a.offset + a.size <= b.offset || b.offset + b.size <= a.offset
  }

  ghost predicate Taken(words: seq<Word>, r: Range) {
    r.offset + r.size <= 32 * |words| && forall k: nat | r.offset <= k < r.offset + r.size :: !IsFree(words, k)
  }

  /** Ranges that were given out and not freed are taken, and no two overlap. */
  ghost predicate LiveOk(words: seq<Word>, live: set<Range>) {
    && (forall r | r in live :: r.size > 0 && Taken(words, r))
    && (forall a, b | a in live && b in live && a != b :: Apart(a, b))
  }

  /** What an allocation or a release of a live range makes of the map and the live ranges. An allocation of no cells
      looks for one that is free, and takes none. */
  datatype Event = Allocated(range: Range) | Refused(size: nat) | Released(range: Range)

  ghost predicate Step(words: seq<Word>, live: set<Range>, e: Event, words': seq<Word>, live': set<Range>) {
    match e
    case Allocated(r) =>
      && FirstFound(words, r.offset, Need(r.size)) && Filled(words, words', r.offset, r.size, false)
      && live' == (if r.size == 0 then live else live + {r})
    case Refused(size) => AllUnseen(words, Need(size)) && words' == words && live' == live
    case Released(r) => r in live && Filled(words, words', r.offset, r.size, true) && live' == live - {r}
  }

  lemma {:induction false} StepKeeps(words: seq<Word>, live: set<Range>, e: Event, words': seq<Word>, live': set<Range>)
    requires LiveOk(words, live) && Step(words, live, e, words', live')
    ensures LiveOk(words', live')
    ensures e.Allocated? ==> forall r | r in live :: Apart(r, e.range)
  {
    hide IsFree;
    match e
    case Allocated(range) =>
      RangeExists(words, range.offset, range.size);
      forall r | r in live
        ensures Apart(r, range) && Taken(words', r)
      {
        FreshRangeApart(words, r, range);
        StillTaken(words, words', r, range, false);
      }
      assert Taken(words', range);
    case Refused(_) =>
    case Released(range) =>
      forall r | r in live'
        ensures Taken(words', r)
      {
        assert Apart(r, range);
        StillTaken(words, words', r, range, true);
      }
  }

  lemma {:induction false} FreshRangeApart(words: seq<Word>, r: Range, range: Range)
    requires Taken(words, r) && FreeRun(words, range.offset, Need(range.size)) && r.size > 0
    ensures Apart(r, range)
  {
    hide IsFree;
    var k := if r.offset >= range.offset then r.offset else range.offset;
    assert r.offset <= k < r.offset + r.size ==> !IsFree(words, k);
    assert range.offset <= k < range.offset + Need(range.size) ==> IsFree(words, k);
  }

  lemma {:induction false} StillTaken(words: seq<Word>, words': seq<Word>, r: Range, range: Range, free: bool)
    requires Taken(words, r) && Filled(words, words', range.offset, range.size, free) && (free ==> Apart(r, range))
    ensures Taken(words', r)
  {
    hide IsFree;
    forall k: nat | r.offset <= k < r.offset + r.size
      ensures !IsFree(words', k)
    {
      assert !IsFree(words, k);
    }
  }

  /** Over every run of allocations and releases live ranges stay taken and never overlap. */
  lemma {:induction false} RunsAreSafe(maps: seq<seq<Word>>, lives: seq<set<Range>>, events: seq<Event>, i: nat)
    requires |maps| == |lives| == |events| + 1 && i <= |events|
    requires lives[0] == {} && forall j | 0 <= j < |events| :: Step(maps[j], lives[j], events[j], maps[j + 1], lives[j + 1])
    ensures LiveOk(maps[i], lives[i])
  {
    if i > 0 {
      RunsAreSafe(maps, lives, events, i - 1);
      StepKeeps(maps[i - 1], lives[i - 1], events[i - 1], maps[i], lives[i]);
    }
  }

  /** What a client asks for. */
  datatype Request = Take(size: nat) | Give(range: Range)

  /** Serving a request is a step: ranges that were given out and not given back stay taken and apart. */
  method Serve(bitmap: Bitmap, request: Request, ghost live: set<Range>) returns (event: Event, ghost live': set<Range>)
    requires |bitmap.words| > 0 && LiveOk(bitmap.words, live) && (request.Give? ==> request.range in live)
    modifies bitmap
    ensures Step(old(bitmap.words), live, event, bitmap.words, live') && LiveOk(bitmap.words, live')
    ensures |bitmap.words| == |old(bitmap.words)|
    ensures match request
            case Take(size) => event == Refused(size) || (event.Allocated? && event.range.size == size)
            case Give(range) => event == Released(range)
  {
    hide IsFree, FirstFound, FreeRun, Filled, AllUnseen, Taken, Apart;
    ghost var before := bitmap.words;
    match request {
      case Take(size) =>
        var offset, granted := bitmap.AllocateFrom(size);
        if offset == -1 {
          event, live' := Refused(size), live;
        } else {
          event := Allocated(Range(offset, size));
          live' := if size == 0 then live else live + {event.range};
          FilledKeeps(before, bitmap.words, offset, size, false);
        }
      case Give(range) =>
        TakenStarts(before, range);
        bitmap.Free(range.offset, range.size);
        event, live' := Released(range), live - {range};
        FilledKeeps(before, bitmap.words, range.offset, range.size, true);
    }
    StepKeeps(before, live, event, bitmap.words, live');
  }

  lemma TakenStarts(words: seq<Word>, r: Range)
    requires Taken(words, r) && r.size > 0
    ensures r.offset / 32 < |words|
  {
  }
}
