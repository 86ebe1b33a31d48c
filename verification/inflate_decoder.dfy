/** Building the decoder's table from code lengths, and decoding one symbol with it. */
module InflateDecoder {
  import opened Powers
  import opened Bits
  import opened CanonicalCode
  import opened InflateTable
  import opened InflateBudget

  /** The bits of `code` in opposite order, collected one at a time. */
  method ReverseBits(code: nat, size: nat) returns (rev: nat)
    ensures rev == Rev(code, size)
  {
    rev := 0;
    var rest: nat, l: nat := code, size;
    while l > 0
      invariant l <= size
      invariant Rev(code, size) == rev * Pow2(l) + Rev(rest, l)
    {
      RevUnfold(rest, l);
      Distribute(rev, 2, rest % 2, Pow2(l - 1));
      Pow2Double(l - 1);
      rev := rev * 2 + rest % 2;
      rest := rest / 2;
      l := l - 1;
    }
    Pow2Double(0);
    RevNone(rest);
  }

  method CountLengths(codeSize: seq<nat>) returns (totals: array<nat>)
    requires Lengths(codeSize)
    ensures fresh(totals) && totals.Length == 16
    ensures forall l | 0 <= l <= 15 :: totals[l] == Count(codeSize, l)
  {
    totals := new nat[16](_ => 0);
    var i := 0;
    while i < |codeSize|
      invariant 0 <= i <= |codeSize|
      invariant forall l | 0 <= l <= 15 :: totals[l] == Count(codeSize[..i], l)
    {
      assert codeSize[..i + 1] == codeSize[..i] + [codeSize[i]];
      totals[codeSize[i]] := totals[codeSize[i]] + 1;
      i := i + 1;
    }
    assert codeSize[..|codeSize|] == codeSize;
  }

  /** The first code of every length, the total they lead to, and the number of used symbols. */
  method NextCodes(totals: array<nat>, ghost sizes: seq<nat>) returns (next: array<nat>, used: nat, total: nat)
    requires totals.Length == 16 && forall l | 0 <= l <= 15 :: totals[l] == Count(sizes, l)
    ensures fresh(next) && next.Length == 17 && forall l | 0 <= l <= 16 :: next[l] == FirstCode(sizes, l)
    ensures used == Used(sizes, 15) && total == FirstCode(sizes, 16)
  {
    hide Count, FirstCode, Used;
    CodesStart(sizes);
    next := new nat[17](_ => 0);
    used, total := 0, 0;
    var i := 1;
    while i <= 15
      invariant 1 <= i <= 16
      invariant forall l | 0 <= l <= i :: next[l] == FirstCode(sizes, l)
      invariant used == Used(sizes, i - 1) && total == FirstCode(sizes, i)
    {
      CodesGoOn(sizes, i);
      used := used + totals[i];
      total := (total + totals[i]) * 2;
      next[i + 1] := total;
      i := i + 1;
    }
  }

  lemma CodesStart(sizes: seq<nat>)
    ensures FirstCode(sizes, 0) == FirstCode(sizes, 1) == 0 && Used(sizes, 0) == 0
  {
  }

  lemma CodesGoOn(sizes: seq<nat>, i: nat)
    requires i >= 1
    ensures FirstCode(sizes, i + 1) == (FirstCode(sizes, i) + Count(sizes, i)) * 2 && Used(sizes, i) == Used(sizes, i - 1) + Count(sizes, i)
  {
  }

  // ---------------------------------------------------------------- entering one symbol

  lemma {:induction false} SameResidue(x: nat, r: nat, p: nat)
    requires p > 0 && x % p == r % p && r <= x < r + p
    ensures x == r
  {
    var q, a := Euclid(x, p);
    var q', a' := Euclid(r, p);
    assert (q - q') * p == q * p - q' * p;
    if q > q' {
      AtLeastOnce(q - q', p);
    } else if q < q' {
      assert (q' - q) * p == q' * p - q * p;
      AtLeastOnce(q' - q, p);
    }
  }

  lemma {:induction false} NextResidue(r: nat, p: nat)
    requires p > 0
    ensures (r + p) % p == r % p
  {
    var q, a := Euclid(r, p);
    assert (q + 1) * p == q * p + p;
    DivModUnique(r + p, p, q + 1, a);
  }

  /** Every lookup entry whose low bits are the code gets the packed length and symbol. */
  method FillShort(look: array<Int16>, s: nat, size: nat, rev: nat)
    requires look.Length == FAST_SIZE && s < 512 && size <= FAST_BITS && rev < Pow2(size)
    modifies look
    ensures forall x | 0 <= x < FAST_SIZE ::
      look[x] == if x % Pow2(size) == rev then size * 512 + s else old(look[x])
  {
    hide Pow2;
    var r := rev;
    var p := Pow2(size);
    DivModUnique(rev, p, 0, rev);
    while r < FAST_SIZE
      invariant r % p == rev
      invariant forall x | 0 <= x < FAST_SIZE ::
        look[x] == if x % p == rev && x < r then size * 512 + s else old(look[x])
      decreases FAST_SIZE - r
    {
      look[r] := size * 512 + s;
      NoneBetween(r, p);
      r := r + p;
    }
  }

  lemma {:induction false} NoneBetween(r: nat, p: nat)
    requires p > 0
    ensures (r + p) % p == r % p && forall x: nat | r < x < r + p :: x % p != r % p
  {
    NextResidue(r, p);
    forall x: nat | r < x < r + p
      ensures x % p != r % p
    {
      if x % p == r % p { SameResidue(x, r, p); }
    }
  }

  lemma {:induction false} ShortEntries(v: int, v': int, order: seq<Node>, sizes: seq<nat>, s: nat, x: nat)
    requires NotOversubscribed(sizes) && s < |sizes| && 0 < sizes[s] <= FAST_BITS
    requires KeysOk(order, sizes, s, FAST_BITS - 1)
    requires LookHolds(v, order, sizes, s, x)
    requires v' == if x % Pow2(sizes[s]) == Transmitted(sizes, s) then sizes[s] * 512 + s else v
    ensures LookHolds(v', order, sizes, s + 1, x)
  {
    var done := s + 1;
    if Starts(sizes, s, x) {
      if Node(FAST_BITS, x) in order {
        assert Known(sizes, s, FAST_BITS - 1, FAST_BITS, x);
        var t :| 0 <= t < s && sizes[t] > FAST_BITS && Path(sizes, t, FAST_BITS) == x;
        NoneShortOnPath(sizes, t, done);
        assert Short(sizes, done, x, s);
      }
      assert Short(sizes, done, x, s);
      forall t: nat | Short(sizes, done, x, t)
        ensures t == s
      {
        PrefixFree(sizes, s, t, x);
      }
    } else {
      if v != 0 && Node(FAST_BITS, x) !in order {
        var t: nat :| Short(sizes, s, x, t);
        assert Short(sizes, done, x, t);
      }
      assert forall t: nat :: Short(sizes, done, x, t) ==> Short(sizes, s, x, t);
    }
  }

  lemma {:induction false} KeysAfterShort(order: seq<Node>, sizes: seq<nat>, s: nat)
    requires s < |sizes| && sizes[s] <= FAST_BITS && KeysOk(order, sizes, s, FAST_BITS - 1)
    ensures KeysOk(order, sizes, s + 1, FAST_BITS - 1)
  {
    forall level: nat, path: nat
      ensures Node(level, path) in order <==> Known(sizes, s + 1, FAST_BITS - 1, level, path)
    {
      assert Node(level, path) in order <==> Known(sizes, s, FAST_BITS - 1, level, path);
    }
  }

  lemma {:induction false} TreeAfterShort(tree: seq<Int16>, order: seq<Node>, sizes: seq<nat>, s: nat)
    requires s < |sizes| && sizes[s] <= FAST_BITS && TreeHolds(tree, order, sizes, s)
    requires forall j | 0 <= j < |order| :: order[j].level >= FAST_BITS
    ensures TreeHolds(tree, order, sizes, s + 1)
  {
    var done := s + 1;
    forall j | 0 <= j < |order|
      ensures NodeHolds(tree, order, sizes, done, j)
    {
      assert NodeHolds(tree, order, sizes, s, j);
      SlotUnaffected(tree[2 * j], order, sizes, s, order[j].level + 1, order[j].path);
      SlotUnaffected(tree[2 * j + 1], order, sizes, s, order[j].level + 1, order[j].path + Pow2(order[j].level));
    }
  }

  lemma {:induction false} ShortStored(look: seq<Int16>, look': seq<Int16>, tree: seq<Int16>, order: seq<Node>, sizes: seq<nat>, s: nat)
    requires State(look, tree, order, sizes, s, FAST_BITS - 1)
    requires s < |sizes| && sizes[s] <= FAST_BITS && |look'| == FAST_SIZE
    requires if sizes[s] == 0 then look' == look else
             forall x | 0 <= x < FAST_SIZE ::
               look'[x] == if x % Pow2(sizes[s]) == Transmitted(sizes, s) then sizes[s] * 512 + s else look[x]
    ensures State(look', tree, order, sizes, s + 1, FAST_BITS - 1)
  {
    PathsInRange(order, sizes, s, FAST_BITS - 1);
    KeysAfterShort(order, sizes, s);
    TreeAfterShort(tree, order, sizes, s);
    hide KeysOk, NoDuplicates, TreeHolds, LookHolds;
    if sizes[s] == 0 {
      LooksAfterSymbol(look, order, sizes, s);
    } else {
      forall x | 0 <= x < |look'|
        ensures LookHolds(look'[x], order, sizes, s + 1, x)
      {
        ShortEntries(look[x], look'[x], order, sizes, s, x);
      }
    }
  }

  // ---------------------------------------------------------------- entering a long code

  /** One more bit of the code selects one of the two slots below its present node. */
  lemma {:induction false} PathStep(sizes: seq<nat>, s: nat, k: nat, rest: nat)
    requires s < |sizes| && rest == Transmitted(sizes, s) / Pow2(k)
    ensures Path(sizes, s, k + 1) == SlotPath(Node(k, Path(sizes, s, k)), rest % 2)
  {
    ModNextBit(Transmitted(sizes, s), k);
  }

  lemma {:induction false} ModNextBit(x: nat, k: nat)
    ensures x % Pow2(k + 1) == x % Pow2(k) + (if x / Pow2(k) % 2 == 0 then 0 else Pow2(k))
  {
    var q, r := Euclid(x, Pow2(k));
    var h, b := Euclid(q, 2);
    Pow2Double(k);
    var p := Pow2(k);
    hide *;
    assert (h * 2 + b) * p == h * (2 * p) + b * p;
    assert b * p == if b == 0 then 0 else p;
    DivModUnique(x, 2 * p, h, b * p + r);
  }

  lemma {:induction false} HalvesAgain(x: nat, k: nat)
    ensures x / Pow2(k) / 2 == x / Pow2(k + 1)
  {
    var q, r := Euclid(x, Pow2(k));
    var h, b := Euclid(q, 2);
    Pow2Double(k);
    var p := Pow2(k);
    assert (h * 2 + b) * p == h * (2 * p) + b * p;
    assert b * p + r < 2 * p by {
      assert b == 0 || b == 1;
    }
    DivModUnique(x, 2 * p, h, b * p + r);
  }

  /** Node `at` is the one the first `k` bits of symbol `s` lead to. */
  ghost predicate AtNode(cur: int, order: seq<Node>, sizes: seq<nat>, s: nat, k: nat, at: nat) {
    && s < |sizes| && at < |order| && cur == -1 - 2 * at
    && order[at] == Node(k, Path(sizes, s, k))
  }

  lemma {:induction false} FollowReference(v: int, order: seq<Node>, sizes: seq<nat>, s: nat, k: nat) returns (at: nat)
    requires s < |sizes| && Refers(v, order, Node(k, Path(sizes, s, k)))
    ensures AtNode(v, order, sizes, s, k, at)
  {
    at :| 0 <= at < |order| && order[at] == Node(k, Path(sizes, s, k)) && v == -1 - 2 * at;
  }

  /** What the entries on the way to symbol `s` can be. */
  lemma {:induction false} RootEntry(look: seq<Int16>, tree: seq<Int16>, order: seq<Node>, sizes: seq<nat>, s: nat)
    requires State(look, tree, order, sizes, s, FAST_BITS - 1) && s < |sizes| && sizes[s] > FAST_BITS
    requires Path(sizes, s, FAST_BITS) < FAST_SIZE
    ensures var v, node := look[Path(sizes, s, FAST_BITS)], Node(FAST_BITS, Path(sizes, s, FAST_BITS));
            if node in order then v < 0 && Refers(v, order, node) else v == 0
  {
    LookOnPath(look[Path(sizes, s, FAST_BITS)], order, sizes, s);
  }

  /** The slot that a bit selects in the node of a symbol's first bits. */
  lemma {:induction false} SlotOf(look: seq<Int16>, tree: seq<Int16>, order: seq<Node>, sizes: seq<nat>, done: nat, s: nat, k: nat,
                                  at: nat, bit: nat)
    requires State(look, tree, order, sizes, done, if done < |sizes| then k else FAST_BITS - 1) && s < |sizes|
    requires at < |order| && order[at] == Node(k, Path(sizes, s, k)) && bit < 2
    requires Path(sizes, s, k + 1) == SlotPath(order[at], bit)
    ensures 2 * at + bit < |tree|
    ensures SlotHolds(tree[2 * at + bit], order, sizes, done, k + 1, Path(sizes, s, k + 1))
  {
    hide SlotHolds, KeysOk, NoDuplicates, Path, NotOversubscribed, LookupHolds, Pow2;
    assert NodeHolds(tree, order, sizes, done, at);
  }

  lemma {:induction false} ChildEntry(look: seq<Int16>, tree: seq<Int16>, order: seq<Node>, sizes: seq<nat>, s: nat, k: nat,
                                      at: nat, bit: nat)
    requires State(look, tree, order, sizes, s, k) && s < |sizes| && FAST_BITS <= k && k + 1 <= sizes[s]
    requires at < |order| && order[at] == Node(k, Path(sizes, s, k)) && bit < 2
    requires Path(sizes, s, k + 1) == SlotPath(order[at], bit)
    ensures 2 * at + bit < |tree|
    ensures var v, node := tree[2 * at + bit], Node(k + 1, Path(sizes, s, k + 1));
            if node in order then v < 0 && Refers(v, order, node) else v == 0
  {
    hide SlotHolds, KeysOk, NoDuplicates, Path, SlotPath, NotOversubscribed, TreeHolds, LookupHolds, Refers;
    SlotOf(look, tree, order, sizes, s, s, k, at, bit);
    SlotOnPath(tree[2 * at + bit], order, sizes, s, k + 1);
  }

  /** There is room for the node that the next bit may need. */
  lemma {:induction false} RoomForNode(look: seq<Int16>, tree: seq<Int16>, order: seq<Node>, sizes: seq<nat>, s: nat, k: nat)
    requires State(look, tree, order, sizes, s, k) && Accepted(sizes)
    requires s < |sizes| && k + 1 < sizes[s] && FAST_BITS - 1 <= k
    requires Node(k + 1, Path(sizes, s, k + 1)) !in order
    ensures 2 * |order| + 2 <= |tree|
  {
    KeysAfterAppend(order, sizes, s, k);
    NodesFit(order + [Node(k + 1, Path(sizes, s, k + 1))], sizes, s, k + 1);
  }

  lemma {:induction false} EmptyTable(look: seq<Int16>, tree: seq<Int16>, sizes: seq<nat>)
    requires |look| == FAST_SIZE && |tree| == 2 * MAX_SYMBOLS && NotOversubscribed(sizes) && |sizes| <= MAX_SYMBOLS
    requires (forall i | 0 <= i < |look| :: look[i] == 0) && (forall i | 0 <= i < |tree| :: tree[i] == 0)
    ensures State(look, tree, [], sizes, 0, FAST_BITS - 1)
  {
  }

  lemma {:induction false} CodeTaken(sizes: seq<nat>, s: nat)
    requires s < |sizes|
    ensures forall l: nat :: Count(sizes[..s + 1], l) == Count(sizes[..s], l) + (if l == sizes[s] then 1 else 0)
  {
    forall l: nat
      ensures Count(sizes[..s + 1], l) == Count(sizes[..s], l) + (if l == sizes[s] then 1 else 0)
    {
      CountAppend(sizes[..s], sizes[s], l);
      assert sizes[..s + 1] == sizes[..s] + [sizes[s]];
    }
  }

  // ---------------------------------------------------------------- decoding

  /** A short code is found in the lookup entry itself, a long one through the tree. */
  lemma {:induction false} LookEntry(look: seq<Int16>, tree: seq<Int16>, order: seq<Node>, sizes: seq<nat>, x: nat, s: nat, bits: nat)
    requires State(look, tree, order, sizes, |sizes|, FAST_BITS - 1) && Starts(sizes, s, bits)
    requires x == bits % Pow2(FAST_BITS) && x < FAST_SIZE
    ensures if look[x] >= 0 then sizes[s] <= FAST_BITS && look[x] == sizes[s] * 512 + s
            else sizes[s] > FAST_BITS && x == Path(sizes, s, FAST_BITS) && Refers(look[x], order, Node(FAST_BITS, x))
  {
    assert LookHolds(look[x], order, sizes, |sizes|, x);
    if sizes[s] <= FAST_BITS {
      ModMod(bits, sizes[s], FAST_BITS);
      assert Short(sizes, |sizes|, x, s);
      if Node(FAST_BITS, x) in order {
        assert Known(sizes, |sizes|, FAST_BITS - 1, FAST_BITS, x);
        var t :| 0 <= t < |sizes| && sizes[t] > FAST_BITS && Path(sizes, t, FAST_BITS) == x;
        NoneShortOnPath(sizes, t, |sizes|);
      }
    } else {
      ModMod(bits, FAST_BITS, sizes[s]);
      assert Inner(sizes, |sizes|, FAST_BITS, x);
      assert Known(sizes, |sizes|, FAST_BITS - 1, FAST_BITS, x);
    }
  }

  lemma {:induction false} NothingStored(look: seq<Int16>, tree: seq<Int16>, order: seq<Node>, sizes: seq<nat>, x: nat, bits: nat)
    requires State(look, tree, order, sizes, |sizes|, FAST_BITS - 1) && x == bits % Pow2(FAST_BITS) && x < FAST_SIZE
    requires forall s | 0 <= s < |sizes| :: sizes[s] <= FAST_BITS
    requires forall s: nat | s < |sizes| :: !Starts(sizes, s, bits)
    ensures look[x] == 0
  {
    hide TreeHolds, NoDuplicates, NotOversubscribed, Transmitted;
    assert LookHolds(look[x], order, sizes, |sizes|, x);
    assert Node(FAST_BITS, x) in order <==> Known(sizes, |sizes|, FAST_BITS - 1, FAST_BITS, x);
    forall t: nat
      ensures !Short(sizes, |sizes|, x, t)
    {
      if t < |sizes| {
        ModMod(bits, sizes[t], FAST_BITS);
        assert !Starts(sizes, t, bits);
        assert Starts(sizes, t, x) <==> Starts(sizes, t, bits);
      }
    }
  }

  /** In a complete table a slot on the way to a symbol holds the symbol or leads further. */
  lemma {:induction false} SlotOfComplete(v: int, order: seq<Node>, sizes: seq<nat>, s: nat, level: nat)
    requires NotOversubscribed(sizes) && KeysOk(order, sizes, |sizes|, FAST_BITS - 1)
    requires s < |sizes| && FAST_BITS < level <= sizes[s]
    requires SlotHolds(v, order, sizes, |sizes|, level, Path(sizes, s, level))
    ensures if v >= 0 then level == sizes[s] && v == s
            else level < sizes[s] && Refers(v, order, Node(level, Path(sizes, s, level)))
  {
    hide Path, NotOversubscribed;
    var path := Path(sizes, s, level);
    assert Node(level, path) in order <==> Known(sizes, |sizes|, FAST_BITS - 1, level, path);
    if level == sizes[s] {
      FullPath(sizes, s);
      CodeIsNotInner(sizes, s, |sizes|);
      assert Lands(sizes, |sizes|, level, path, s);
    } else {
      assert Inner(sizes, |sizes|, level, path);
    }
  }

  /** The slot that the next bit selects holds the symbol or leads further. */
  lemma {:induction false} TreeEntry(look: seq<Int16>, tree: seq<Int16>, order: seq<Node>, sizes: seq<nat>, s: nat, k: nat,
                                     at: nat, bit: nat)
    requires State(look, tree, order, sizes, |sizes|, FAST_BITS - 1) && s < |sizes| && FAST_BITS <= k < sizes[s]
    requires at < |order| && order[at] == Node(k, Path(sizes, s, k)) && bit < 2
    requires Path(sizes, s, k + 1) == SlotPath(order[at], bit)
    ensures 2 * at + bit < |tree|
    ensures if tree[2 * at + bit] >= 0 then k + 1 == sizes[s] && tree[2 * at + bit] == s
            else k + 1 < sizes[s] && Refers(tree[2 * at + bit], order, Node(k + 1, Path(sizes, s, k + 1)))
  {
    hide SlotHolds, NoDuplicates, KeysOk, Path, SlotPath, NotOversubscribed, TreeHolds, LookupHolds, Refers;
    SlotOf(look, tree, order, sizes, |sizes|, s, k, at, bit);
    SlotOfComplete(tree[2 * at + bit], order, sizes, s, k + 1);
  }

  /** The bits of the stream beyond the first `k` agree with the symbol's while its code lasts. */
  lemma {:induction false} StreamStep(sizes: seq<nat>, s: nat, bits: nat, k: nat)
    requires Starts(sizes, s, bits) && k < sizes[s]
    ensures Path(sizes, s, k) == bits % Pow2(k)
    ensures Path(sizes, s, k + 1) == SlotPath(Node(k, Path(sizes, s, k)), bits / Pow2(k) % 2)
  {
    ModMod(bits, k, sizes[s]);
    ModMod(bits, k + 1, sizes[s]);
    ModNextBit(bits, k);
  }

  lemma {:induction false} Pow2Nine()
    ensures Pow2(9) == 512
  {
    Pow2Values();
  }

  /** The node for the next bit exists already. */
  lemma {:induction false} StateUnchanged(look: seq<Int16>, tree: seq<Int16>, order: seq<Node>, sizes: seq<nat>, s: nat, k: nat)
    requires State(look, tree, order, sizes, s, k) && s < |sizes| && Node(k + 1, Path(sizes, s, k + 1)) in order
    ensures State(look, tree, order, sizes, s, k + 1)
  {
    hide KeysOk, NoDuplicates, LookupHolds, TreeHolds, NotOversubscribed, Path;
    KeysUnchanged(order, sizes, s, k);
  }

  lemma {:induction false} StateShape(look: seq<Int16>, tree: seq<Int16>, order: seq<Node>, sizes: seq<nat>, s: nat, k: nat)
    requires State(look, tree, order, sizes, s, k)
    ensures |look| == FAST_SIZE && |tree| == 2 * MAX_SYMBOLS && s <= |sizes| <= MAX_SYMBOLS && 2 * |order| <= |tree|
  {
  }

  /** The decoder's table for one code. */
  class HuffTable {
    const lookUp: array<Int16>
    const tree: array<Int16>
    ghost var order: seq<Node>
    var sizes: seq<nat>

    constructor ()
      ensures fresh(lookUp) && fresh(tree) && lookUp != tree
      ensures lookUp.Length == FAST_SIZE && tree.Length == 2 * MAX_SYMBOLS
    {
      lookUp, tree := new Int16[FAST_SIZE], new Int16[2 * MAX_SYMBOLS];
    }

    /** The state after all symbols below `s`, and symbol `s` down to level `k`, were entered. */
    ghost predicate Holds(s: nat, k: nat)
      reads this, lookUp, tree
    {
      lookUp != tree && State(lookUp[..], tree[..], order, sizes, s, k)
    }

    /** The table is complete for the code with lengths `sizes`. */
    ghost predicate Represents()
      reads this, lookUp, tree
    {
      Holds(|sizes|, FAST_BITS - 1)
    }

    /** Finds or makes the node for the first ten bits of symbol `s`. */
    method EnterRoot(s: nat, rev: nat, treeNext: int) returns (cur: int, next: int, ghost at: nat)
      requires Holds(s, FAST_BITS - 1) && Accepted(sizes) && s < |sizes| && sizes[s] > FAST_BITS
      requires rev == Transmitted(sizes, s) && treeNext == -1 - 2 * |order|
      modifies this, lookUp
      ensures sizes == old(sizes) && Holds(s, FAST_BITS) && AtNode(cur, order, sizes, s, FAST_BITS, at)
      ensures next == -1 - 2 * |order|
    {
      ghost var x := Path(sizes, s, FAST_BITS);
      ghost var look := lookUp[..];
      assert Pow2(FAST_BITS) == FAST_SIZE;
      assert x == rev % FAST_SIZE;
      RootEntry(look, tree[..], order, sizes, s);
      next := treeNext;
      cur := lookUp[rev % FAST_SIZE];
      if cur == 0 {
        RoomForNode(look, tree[..], order, sizes, s, FAST_BITS - 1);
        NewRoot(look, tree[..], order, sizes, s);
        lookUp[rev % FAST_SIZE] := next;
        ghost var entry: Int16 := next;
        assert lookUp[..] == look[x := entry];
        at := |order|;
        order := order + [Node(FAST_BITS, x)];
        cur := next;
        next := next - 2;
      } else {
        KeysUnchanged(order, sizes, s, FAST_BITS - 1);
        at := FollowReference(cur, order, sizes, s, FAST_BITS);
      }
    }

    /** Finds or makes the node that the bit after the first `k` leads to. */
    method EnterChild(s: nat, ghost k: nat, rest: nat, from: int, treeNext: int, ghost up: nat)
      returns (cur: int, next: int, ghost at: nat)
      requires Holds(s, k) && Accepted(sizes) && s < |sizes| && FAST_BITS <= k && k + 1 < sizes[s]
      requires AtNode(from, order, sizes, s, k, up) && treeNext == -1 - 2 * |order|
      requires Path(sizes, s, k + 1) == SlotPath(order[up], rest % 2)
      modifies this, tree
      ensures sizes == old(sizes) && Holds(s, k + 1) && AtNode(cur, order, sizes, s, k + 1, at)
      ensures next == -1 - 2 * |order|
    {
      hide State, Path, SlotPath, Accepted, Pow2, Refers, KeysOk, NoDuplicates;
      ghost var t := tree[..];
      ghost var bit := rest % 2;
      ChildEntry(lookUp[..], t, order, sizes, s, k, up, bit);
      next := treeNext;
      cur := from - rest % 2;
      if tree[-cur - 1] == 0 {
        RoomForNode(lookUp[..], t, order, sizes, s, k);
        NewChild(lookUp[..], t, order, sizes, s, k, up, bit);
        tree[-cur - 1] := next;
        ghost var entry: Int16 := next;
        assert tree[..] == t[2 * up + bit := entry];
        at := |order|;
        order := order + [Node(k + 1, Path(sizes, s, k + 1))];
        cur := next;
        next := next - 2;
      } else {
        StateUnchanged(lookUp[..], tree[..], order, sizes, s, k);
        cur := tree[-cur - 1];
        at := FollowReference(cur, order, sizes, s, k + 1);
      }
    }

    /** Goes one bit further down the tree. */
    method Descend(s: nat, ghost k: nat, before: nat, from: int, treeNext: int, ghost up: nat)
      returns (rest: nat, cur: int, next: int, ghost at: nat)
      requires Holds(s, k) && Accepted(sizes) && s < |sizes| && FAST_BITS <= k && k + 1 < sizes[s]
      requires AtNode(from, order, sizes, s, k, up) && treeNext == -1 - 2 * |order|
      requires before == Transmitted(sizes, s) / Pow2(k - 1)
      modifies this, tree
      ensures sizes == old(sizes) && Holds(s, k + 1) && AtNode(cur, order, sizes, s, k + 1, at)
      ensures next == -1 - 2 * |order| && rest == Transmitted(sizes, s) / Pow2(k)
    {
      hide State, Path, SlotPath, Accepted, Transmitted, Pow2;
      HalvesAgain(Transmitted(sizes, s), k - 1);
      rest := before / 2;
      PathStep(sizes, s, k, rest);
      cur, next, at := EnterChild(s, k, rest, from, treeNext, up);
    }

    /** Enters a code of more than ten bits. */
    method EnterLong(s: nat, codeSize: nat, revCode: nat, treeNext: int) returns (next: int)
      requires Holds(s, FAST_BITS - 1) && Accepted(sizes) && s < |sizes|
      requires codeSize == sizes[s] > FAST_BITS && revCode == Transmitted(sizes, s) && treeNext == -1 - 2 * |order|
      modifies this, lookUp, tree
      ensures sizes == old(sizes) && Holds(s + 1, FAST_BITS - 1) && next == -1 - 2 * |order|
    {
      hide State, Path, SlotPath, Accepted, Transmitted, Pow2, AtNode;
      ghost var at;
      var cur;
      cur, next, at := EnterRoot(s, revCode, treeNext);
      Pow2Nine();
      var rest := revCode / 512;
      var j := codeSize;
      ghost var k: nat := FAST_BITS;
      while j > FAST_BITS + 1
        invariant FAST_BITS < j <= codeSize && k == FAST_BITS + codeSize - j
        invariant sizes == old(sizes) && Holds(s, k) && AtNode(cur, order, sizes, s, k, at)
        invariant rest == revCode / Pow2(k - 1) && next == -1 - 2 * |order|
      {
        rest, cur, next, at := Descend(s, k, rest, cur, next, at);
        j := j - 1;
        k := k + 1;
      }
      StoreAt(s, codeSize, rest, cur, at);
    }

    /** Writes symbol `s` into the slot its last bit selects. */
    method StoreAt(s: nat, codeSize: nat, before: nat, from: int, ghost at: nat)
      requires s < |sizes| && codeSize == sizes[s] > FAST_BITS && Holds(s, sizes[s] - 1)
      requires AtNode(from, order, sizes, s, sizes[s] - 1, at)
      requires before == Transmitted(sizes, s) / Pow2(codeSize - 2)
      modifies tree
      ensures Holds(s + 1, FAST_BITS - 1)
    {
      hide SlotPath, Path, State, Transmitted, Pow2;
      var rest := before / 2;
      HalvesAgain(Transmitted(sizes, s), codeSize - 2);
      PathStep(sizes, s, codeSize - 1, rest);
      FullPath(sizes, s);
      StateShape(lookUp[..], tree[..], order, sizes, s, sizes[s] - 1);
      ghost var t := tree[..];
      StoreSymbol(lookUp[..], t, order, sizes, s, at, rest % 2);
      var cur := from - rest % 2;
      tree[-cur - 1] := s;
      ghost var entry: Int16 := s;
      assert tree[..] == t[2 * at + rest % 2 := entry];
    }

    /** Enters one symbol. */
    method Enter(s: nat, codeSize: nat, code: nat, treeNext: int) returns (next: int)
      requires Holds(s, FAST_BITS - 1) && Accepted(sizes) && s < |sizes|
      requires codeSize == sizes[s] > 0 && code == CodeOf(sizes, s) && treeNext == -1 - 2 * |order|
      modifies this, lookUp, tree
      ensures sizes == old(sizes) && Holds(s + 1, FAST_BITS - 1) && next == -1 - 2 * |order|
    {
      var revCode := ReverseBits(code, codeSize);
      next := treeNext;
      if codeSize <= FAST_BITS {
        ghost var look := lookUp[..];
        FillShort(lookUp, s, codeSize, revCode);
        ShortStored(look, lookUp[..], tree[..], order, sizes, s);
      } else {
        next := EnterLong(s, codeSize, revCode, treeNext);
      }
    }

    method Clear()
      requires lookUp != tree
      modifies lookUp, tree
      ensures forall i | 0 <= i < lookUp.Length :: lookUp[i] == 0
      ensures forall i | 0 <= i < tree.Length :: tree[i] == 0
    {
      forall i | 0 <= i < lookUp.Length {
        lookUp[i] := 0;
      }
      forall i | 0 <= i < tree.Length {
        tree[i] := 0;
      }
    }

    /** Builds the table, or rejects lengths that are neither complete nor of a single symbol. */
    method Build(codeSize: seq<nat>) returns (ok: bool)
      requires lookUp != tree && lookUp.Length == FAST_SIZE && tree.Length == 2 * MAX_SYMBOLS
      requires |codeSize| <= MAX_SYMBOLS && Lengths(codeSize)
      modifies this, lookUp, tree
      ensures ok <==> Accepted(codeSize)
      ensures ok ==> sizes == codeSize && Represents()
    {
      hide State, Used, Count, FirstCode;
      Clear();
      var totals := CountLengths(codeSize);
      var nextCode, used, total := NextCodes(totals, codeSize);
      Pow2Values();
      if 65536 != total && used > 1 {
        return false;
      }
      AcceptedFits(codeSize);
      sizes, order := codeSize, [];
      EmptyTable(lookUp[..], tree[..], codeSize);
      var treeNext, s := -1, 0;
      CountNone();
      while s < |codeSize|
        invariant 0 <= s <= |codeSize| && sizes == codeSize && Holds(s, FAST_BITS - 1)
        invariant treeNext == -1 - 2 * |order|
        invariant forall l | 1 <= l <= 15 :: nextCode[l] == FirstCode(codeSize, l) + Count(codeSize[..s], l)
      {
        var size := codeSize[s];
        CodeTaken(codeSize, s);
        if size != 0 {
          var code := nextCode[size];
          nextCode[size] := code + 1;
          treeNext := Enter(s, size, code, treeNext);
        } else {
          ShortStored(lookUp[..], lookUp[..], tree[..], order, sizes, s);
        }
        s := s + 1;
      }
      return true;
    }

    /** Decodes the symbol whose code starts the stream, and reports how many bits it took. */
    method Decode(bits: nat) returns (sym: int, codeLen: nat)
      requires Represents() && exists s: nat :: Starts(sizes, s, bits)
      ensures 0 <= sym < |sizes| && Starts(sizes, sym, bits) && codeLen == sizes[sym]
    {
      ghost var s: nat :| Starts(sizes, s, bits);
      assert s < |sizes| <= MAX_SYMBOLS;
      Pow2Values();
      hide *;
      sym := LookUp(bits, s);
      if sym >= 0 {
        DivModUnique(sym, 512, sizes[s], s);
        return sym % 512, sym / 512;
      }
      sym, codeLen := WalkTree(bits, sym, s);
    }

    /** The table of a complete code decodes every bit stream, and in one way only. */
    method DecodeAny(bits: nat) returns (sym: int, codeLen: nat)
      requires Represents() && CompleteCode(sizes)
      ensures 0 <= sym < |sizes| && Starts(sizes, sym, bits) && codeLen == sizes[sym]
      ensures forall s: nat | Starts(sizes, s, bits) :: s == sym
    {
      hide HuffTable.Represents, Starts, CompleteCode;
      ghost var some := SomeSymbolStarts(sizes, bits);
      sym, codeLen := Decode(bits);
      CompleteNotOversubscribed(sizes);
      forall s: nat | Starts(sizes, s, bits)
        ensures s == sym
      {
        PrefixFree(sizes, s, sym, bits);
      }
    }

    /** For bits that no code contains the entry is zero, as if symbol 0 had a code without bits. */
    method StrayEntry(bits: nat) returns (entry: int)
      requires Represents() && (forall s | 0 <= s < |sizes| :: sizes[s] <= FAST_BITS)
      requires forall s: nat | s < |sizes| :: !Starts(sizes, s, bits)
      ensures entry == 0
    {
      Pow2Values();
      NothingStored(lookUp[..], tree[..], order, sizes, bits % FAST_SIZE, bits);
      entry := lookUp[bits % FAST_SIZE];
    }

    /** The entry for the next ten bits. */
    method LookUp(bits: nat, ghost s: nat) returns (v: int)
      requires Represents() && s < |sizes| && Starts(sizes, s, bits)
      ensures if v >= 0 then v == sizes[s] * 512 + s
              else sizes[s] > FAST_BITS && Refers(v, order, Node(FAST_BITS, Path(sizes, s, FAST_BITS)))
    {
      Pow2Values();
      LookEntry(lookUp[..], tree[..], order, sizes, bits % FAST_SIZE, s, bits);
      v := lookUp[bits % FAST_SIZE];
    }

    /** Follows the bits after the first ten until a slot holds a symbol. */
    method WalkTree(bits: nat, entry: int, ghost s: nat) returns (sym: int, codeLen: nat)
      requires Represents() && s < |sizes| && Starts(sizes, s, bits) && sizes[s] > FAST_BITS
      requires entry < 0 && Refers(entry, order, Node(FAST_BITS, Path(sizes, s, FAST_BITS)))
      ensures codeLen == sizes[s] && sym == s
    {
      hide State, Path, SlotPath, Starts, Refers;
      sym, codeLen := entry, FAST_BITS;
      ghost var at := FollowReference(sym, order, sizes, s, FAST_BITS);
      while sym < 0
        invariant sym < 0 ==> FAST_BITS <= codeLen < sizes[s] && AtNode(sym, order, sizes, s, codeLen, at)
        invariant sym >= 0 ==> codeLen == sizes[s] && sym == s
        decreases sizes[s] - codeLen, -sym
      {
        StreamStep(sizes, s, bits, codeLen);
        ghost var bit := bits / Pow2(codeLen) % 2;
        TreeEntry(lookUp[..], tree[..], order, sizes, s, codeLen, at, bit);
        sym := tree[-sym - 1 + bits / Pow2(codeLen) % 2];
        codeLen := codeLen + 1;
        if sym < 0 {
          at := FollowReference(sym, order, sizes, s, codeLen);
        }
      }
    }
  }

  /** A code of one symbol, whose code is a zero: a one is looked up as well, and found to be symbol 0. */
  method OneSymbolCode() returns (ok: bool, entry: int)
    ensures ok && entry == 0
  {
    hide HuffTable.Represents, Accepted, Starts, Lengths;
    OneSymbol();
    var table := new HuffTable();
    ok := table.Build([0, 1]);
    entry := table.StrayEntry(1);
  }

  lemma {:induction false} OneSymbol()
    ensures Lengths([0, 1]) && Accepted([0, 1]) && forall s: nat | s < 2 :: !Starts([0, 1], s, 1)
  {
    hide Starts;
    NoneLonger(15);
    NotTheOne();
  }

  lemma {:induction false} NotTheOne()
    ensures forall s: nat | s < 2 :: !Starts([0, 1], s, 1)
  {
    CountTwo(0);
    CountTwo(1);
    assert Pow2(1) == 2;
    assert FirstCode([0, 1], 1) == 0 && Count([0, 1][..1], 1) == 0 by {
      CountAppend([], 0, 1);
      assert [] + [0] == [0, 1][..1];
    }
    assert Rev(0, 1) == 0;
  }

  lemma {:induction false} CountTwo(l: nat)
    ensures Count([0, 1], l) == if l <= 1 then 1 else 0
  {
    CountAppend([], 0, l);
    CountAppend([0], 1, l);
    assert [] + [0] == [0] && [0] + [1] == [0, 1];
  }

  lemma {:induction false} NoneLonger(l: nat)
    requires l >= 1
    ensures Used([0, 1], l) == 1
  {
    CountTwo(l);
    if l > 1 {
      NoneLonger(l - 1);
    } else {
      assert Used([0, 1], 0) == 0;
    }
  }

  lemma {:induction false} CountNone()
    ensures forall l: nat :: Count([], l) == 0
  {
  }

  lemma CompleteNotOversubscribed(sizes: seq<nat>)
    requires CompleteCode(sizes)
    ensures NotOversubscribed(sizes)
  {
  }
}
