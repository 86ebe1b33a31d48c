/** The hash chains: from every position a link to the latest earlier one with the same hash over three bytes, kept as
    16-bit numbers in a ring; zero means that there is none. */
module LzChains {
  import opened LzCodes
  import opened LzWindow
  import opened LzHash

  function HashAt(history: seq<Byte>, q: nat): (h: nat)
    requires q + 2 < |history|
    ensures h < HASH_SIZE
  {
    HashIndex(HashThree(history[q], history[q + 1], history[q + 2]));
    HashThree(history[q], history[q + 1], history[q + 2]) as int
  }

  /** The latest position from `base` on and before `n` with the hash, or -1. */
  ghost function Latest(history: seq<Byte>, base: nat, n: nat, h: nat): (p: int)
    requires n <= base || n + 2 <= |history|
    ensures p == -1 || (base <= p < n && HashAt(history, p) == h)
    ensures forall q: nat | base <= q < n && p < q :: HashAt(history, q) != h
    decreases n
  {
    if n <= base then -1
    else if HashAt(history, n - 1) == h then n - 1
    else Latest(history, base, n - 1, h)
  }

  /** How a position is kept in 16 bits. */
  function Link(p: int): Word16 {
    if p < 0 then 0 else p % 0x10000
  }

  /** The positions from `base` on and before `n` are in the chains. */
  ghost predicate Chained(next: seq<Word16>, hash: seq<Word16>, history: seq<Byte>, base: nat, n: nat) {
    && |next| == LZ_DICT_SIZE && |hash| == HASH_SIZE && base <= n && (n == base || n + 2 <= |history|)
    && (forall h: nat | h < HASH_SIZE :: hash[h] == Link(Latest(history, base, n, h)))
    && (forall q: nat | base <= q < n <= q + LZ_DICT_SIZE ::
          next[q % LZ_DICT_SIZE] == Link(Latest(history, base, q, HashAt(history, q))))
  }

  lemma {:induction false} NoChains(next: seq<Word16>, hash: seq<Word16>, history: seq<Byte>, base: nat)
    requires |next| == LZ_DICT_SIZE && |hash| == HASH_SIZE && forall h | 0 <= h < HASH_SIZE :: hash[h] == 0
    ensures Chained(next, hash, history, base, base)
  {
  }

  lemma {:induction false} LatestGrows(history: seq<Byte>, c: Byte, base: nat, n: nat, h: nat)
    requires n <= base || n + 2 <= |history|
    ensures Latest(history + [c], base, n, h) == Latest(history, base, n, h)
    decreases n
  {
    hide HashThree;
    if n > base {
      assert HashAt(history + [c], n - 1) == HashAt(history, n - 1);
      LatestGrows(history, c, base, n - 1, h);
    }
  }

  /** More input does not disturb the chains. */
  lemma {:induction false} ChainedGrows(next: seq<Word16>, hash: seq<Word16>, history: seq<Byte>, c: Byte, base: nat, n: nat)
    requires Chained(next, hash, history, base, n)
    ensures Chained(next, hash, history + [c], base, n)
  {
    hide HashThree, Latest;
    forall h: nat | h < HASH_SIZE
      ensures hash[h] == Link(Latest(history + [c], base, n, h))
    {
      LatestGrows(history, c, base, n, h);
    }
    forall q: nat | base <= q < n <= q + LZ_DICT_SIZE
      ensures next[q % LZ_DICT_SIZE] == Link(Latest(history + [c], base, q, HashAt(history + [c], q)))
    {
      assert HashAt(history + [c], q) == HashAt(history, q);
      LatestGrows(history, c, base, q, HashAt(history, q));
    }
  }

  /** The next position becomes the head of its chain. */
  lemma {:induction false} ChainedOne(next: seq<Word16>, hash: seq<Word16>, history: seq<Byte>, base: nat, n: nat)
    requires Chained(next, hash, history, base, n) && n + 2 < |history|
    ensures var h := HashAt(history, n);
            Chained(next[n % LZ_DICT_SIZE := hash[h]], hash[h := n % 0x10000], history, base, n + 1)
  {
    hide HashAt;
    var h := HashAt(history, n);
    var next', hash' := next[n % LZ_DICT_SIZE := hash[h]], hash[h := n % 0x10000];
    forall k: nat | k < HASH_SIZE
      ensures hash'[k] == Link(Latest(history, base, n + 1, k))
    {
    }
    forall q: nat | base <= q < n + 1 <= q + LZ_DICT_SIZE
      ensures next'[q % LZ_DICT_SIZE] == Link(Latest(history, base, q, HashAt(history, q)))
    {
      if q < n {
        DifferentSlots(q, n);
      }
    }
  }

  // ---------------------------------------------------------------- the hash rolls on

  lemma RollsFromTwo(a: Byte, b: Byte, c: Byte)
    ensures HashStep(HashTwo(a, b), c as bv32) == HashThree(a, b, c)
  {
    var x, y, z: bv32 := a as bv32, b as bv32, c as bv32;
    assert (((((x << 5) ^ y) << 5) ^ z) & 0x7FFF) == ((x << 10) ^ (y << 5) ^ z) & 0x7FFF;
  }

  lemma RollsOn(o: Byte, a: Byte, b: Byte, c: Byte)
    ensures HashStep(HashThree(o, a, b), c as bv32) == HashThree(a, b, c)
  {
    var w, x, y, z: bv32 := o as bv32, a as bv32, b as bv32, c as bv32;
    assert ((((((w << 10) ^ (x << 5) ^ y) & 0x7FFF) << 5) ^ z) & 0x7FFF) == ((x << 10) ^ (y << 5) ^ z) & 0x7FFF;
  }

  // ---------------------------------------------------------------- along a chain

  /** The position `i` links before `at`, or -1. */
  ghost function ChainPos(history: seq<Byte>, base: nat, at: nat, i: nat): (p: int)
    requires base <= at && at + 2 < |history|
    ensures p == -1 || (base <= p <= at && HashAt(history, p) == HashAt(history, at) && (i > 0 ==> p < at))
  {
    if i == 0 then at
    else
      var q := ChainPos(history, base, at, i - 1);
      if q < 0 then -1 else Latest(history, base, q, HashAt(history, at))
  }

  /** The link at link `i` leads to the next one. */
  lemma {:induction false} NextLink(next: seq<Word16>, hash: seq<Word16>, history: seq<Byte>, base: nat, n: nat, at: nat, size: nat, i: nat)
    requires Chained(next, hash, history, base, n) && base <= at < n && at + 2 < |history| && n - at + size <= LZ_DICT_SIZE
    requires Visible(history, base, at, size, i)
    ensures var q := ChainPos(history, base, at, i);
            && 0 <= q <= at && next[q % LZ_DICT_SIZE] == Link(ChainPos(history, base, at, i + 1))
            && ChainPos(history, base, at, i + 1) < q
  {
    hide Latest, HashAt;
    var q := ChainPos(history, base, at, i);
    assert i > 0 ==> q >= 0 && at - q <= size;
    assert q < n <= q + LZ_DICT_SIZE;
  }

  /** A link that can be followed gives back the distance. */
  lemma LinkDistance(p: int, at: nat, size: nat)
    requires 0 <= p <= at && p % 0x10000 != 0 && at - p <= size <= LZ_DICT_SIZE
    ensures Link(p) != 0 && (at - Link(p)) % 0x10000 == at - p
  {
  }

  /** The first `i` links stay within `size` bytes, and none is a multiple of 2^16, which would read as none. */
  ghost predicate Visible(history: seq<Byte>, base: nat, at: nat, size: nat, i: nat)
    requires base <= at && at + 2 < |history|
  {
    forall j: nat | 1 <= j <= i ::
      var p := ChainPos(history, base, at, j);
      p >= 0 && p % 0x10000 != 0 && at - p <= size
  }

  /** No repeat of more than `most` bytes `dist` bytes back, as far as the lookahead goes. */
  ghost predicate NoLonger(history: seq<Byte>, at: nat, size: nat, dist: int, most: nat) {
    dist >= 0 && forall len: nat | len <= size && Repeats(history, at, len, dist) :: len <= most
  }

  /** Every position of the window with the same hash is a link of the chain. */
  lemma {:induction false} OnTheChain(history: seq<Byte>, base: nat, at: nat, p: nat) returns (i: nat)
    requires base <= p < at && at + 2 < |history| && HashAt(history, p) == HashAt(history, at)
    ensures i >= 1 && ChainPos(history, base, at, i) == p
  {
    hide HashAt;
    i := 1;
    while ChainPos(history, base, at, i) != p
      invariant i >= 1 && p <= ChainPos(history, base, at, i) < at
      decreases ChainPos(history, base, at, i)
    {
      i := i + 1;
    }
  }

  /** Bytes that repeat have the same hash. */
  lemma {:induction false} RepeatsSameHash(history: seq<Byte>, at: nat, len: nat, dist: nat)
    requires Repeats(history, at, len, dist) && len >= 3
    ensures HashAt(history, at - dist) == HashAt(history, at)
  {
  }
}
