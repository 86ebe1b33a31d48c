/** The decoder's Huffman table: a 1024-entry lookup on the next ten bits, and a binary tree, two slots a
    node, for longer codes. The abstract state lists the code prefixes that own a tree node. */
module InflateTable {
  import opened Powers
  import opened Bits
  import opened CanonicalCode

  type Int16 = x: int | -0x8000 <= x < 0x8000

  const FAST_BITS := 10
  const FAST_SIZE := 1024
  const MAX_SYMBOLS := 288

  /** The `level` first transmitted bits of some code longer than `level`. */
  datatype Node = Node(level: nat, path: nat)

  /** The first `level` transmitted bits of symbol `s`. */
  ghost function Path(sizes: seq<nat>, s: nat, level: nat): (p: nat)
    requires s < |sizes|
    ensures p < Pow2(level)
  {
    Transmitted(sizes, s) % Pow2(level)
  }

  /** A symbol below `done` has a code longer than `level` that starts with `path`. */
  ghost predicate Inner(sizes: seq<nat>, done: nat, level: nat, path: nat)
    requires done <= |sizes|
  {
    exists s :: 0 <= s < done && sizes[s] > level && Path(sizes, s, level) == path
  }

  /** A symbol below `done` has exactly the code `path` of length `level`. */
  ghost predicate Lands(sizes: seq<nat>, done: nat, level: nat, path: nat, s: nat)
    requires done <= |sizes|
  {
    s < done && sizes[s] == level && Transmitted(sizes, s) == path
  }

  /** A symbol below `done` has a code of at most ten bits that starts the ten bits `x`. */
  ghost predicate Short(sizes: seq<nat>, done: nat, x: nat, s: nat)
    requires done <= |sizes|
  {
    s < done && sizes[s] <= FAST_BITS && Starts(sizes, s, x)
  }

  /** Which prefixes own a node once symbols below `s`, and symbol `s` down to level `k`, are entered. */
  ghost predicate Known(sizes: seq<nat>, s: nat, k: nat, level: nat, path: nat)
    requires s <= |sizes|
  {
    && level >= FAST_BITS
    && (Inner(sizes, s, level, path) || (level <= k && s < |sizes| && path == Path(sizes, s, level)))
  }

  ghost predicate KeysOk(order: seq<Node>, sizes: seq<nat>, s: nat, k: nat)
    requires s <= |sizes|
  {
    forall level: nat, path: nat :: Node(level, path) in order <==> Known(sizes, s, k, level, path)
  }

  ghost predicate NoDuplicates(order: seq<Node>) {
    forall i, j | 0 <= i < j < |order| :: order[i] != order[j]
  }

  /** `v` refers to the tree node that belongs to `node`. */
  ghost predicate Refers(v: int, order: seq<Node>, node: Node) {
    exists j :: 0 <= j < |order| && order[j] == node && v == -1 - 2 * j
  }

  /** What the tree slot for the prefix (`level`, `path`) must hold. */
  ghost predicate SlotHolds(v: int, order: seq<Node>, sizes: seq<nat>, done: nat, level: nat, path: nat)
    requires done <= |sizes|
  {
    if Node(level, path) in order then Refers(v, order, Node(level, path))
    else
      && v >= 0
      && (forall t: nat | Lands(sizes, done, level, path, t) :: v == t)
      && (v != 0 ==> exists t: nat :: Lands(sizes, done, level, path, t))
  }

  /** What the lookup entry for the ten bits `x` must hold. */
  ghost predicate LookHolds(v: int, order: seq<Node>, sizes: seq<nat>, done: nat, x: nat)
    requires done <= |sizes|
  {
    if Node(FAST_BITS, x) in order then Refers(v, order, Node(FAST_BITS, x))
    else
      && v >= 0
      && (forall t: nat | Short(sizes, done, x, t) :: v == sizes[t] * 512 + t)
      && (v != 0 ==> exists t: nat :: Short(sizes, done, x, t))
  }

  ghost predicate NodeHolds(tree: seq<Int16>, order: seq<Node>, sizes: seq<nat>, done: nat, j: nat)
    requires done <= |sizes| && j < |order| && 2 * |order| <= |tree|
  {
    && SlotHolds(tree[2 * j], order, sizes, done, order[j].level + 1, order[j].path)
    && SlotHolds(tree[2 * j + 1], order, sizes, done, order[j].level + 1, order[j].path + Pow2(order[j].level))
  }

  ghost predicate TreeHolds(tree: seq<Int16>, order: seq<Node>, sizes: seq<nat>, done: nat)
    requires done <= |sizes|
  {
    && 2 * |order| <= |tree|
    && (forall j | 0 <= j < |order| :: NodeHolds(tree, order, sizes, done, j))
    && (forall i | 2 * |order| <= i < |tree| :: tree[i] == 0)
  }

  ghost predicate LookupHolds(look: seq<Int16>, order: seq<Node>, sizes: seq<nat>, done: nat)
    requires done <= |sizes|
  {
    forall x | 0 <= x < |look| :: LookHolds(look[x], order, sizes, done, x)
  }

  ghost predicate State(look: seq<Int16>, tree: seq<Int16>, order: seq<Node>, sizes: seq<nat>, s: nat, k: nat) {
    && |look| == FAST_SIZE && |tree| == 2 * MAX_SYMBOLS
    && NotOversubscribed(sizes) && s <= |sizes| <= MAX_SYMBOLS
    && NoDuplicates(order) && KeysOk(order, sizes, s, k)
    && LookupHolds(look, order, sizes, s)
    && TreeHolds(tree, order, sizes, s)
  }

  // ---------------------------------------------------------------- prefix-freeness at a slot

  lemma {:induction false} StartsItself(sizes: seq<nat>, s: nat)
    requires s < |sizes| && sizes[s] > 0
    ensures Starts(sizes, s, Transmitted(sizes, s))
  {
    DivModUnique(Transmitted(sizes, s), Pow2(sizes[s]), 0, Transmitted(sizes, s));
  }

  /** A code that is a prefix of another symbol's code is that symbol's own. */
  lemma {:induction false} PrefixIsSelf(sizes: seq<nat>, s: nat, t: nat, level: nat)
    requires NotOversubscribed(sizes) && s < |sizes| && t < |sizes|
    requires 0 < sizes[t] <= level <= sizes[s]
    requires Path(sizes, s, level) % Pow2(sizes[t]) == Transmitted(sizes, t)
    ensures s == t
  {
    hide NotOversubscribed;
    StartsItself(sizes, s);
    ModMod(Transmitted(sizes, s), sizes[t], level);
    PrefixFree(sizes, s, t, Transmitted(sizes, s));
  }

  lemma {:induction false} PathOfPath(sizes: seq<nat>, s: nat, k: nat, level: nat)
    requires s < |sizes| && k <= level
    ensures Path(sizes, s, level) % Pow2(k) == Path(sizes, s, k)
  {
    ModMod(Transmitted(sizes, s), k, level);
  }

  lemma {:induction false} FullPath(sizes: seq<nat>, s: nat)
    requires s < |sizes|
    ensures Path(sizes, s, sizes[s]) == Transmitted(sizes, s)
  {
    DivModUnique(Transmitted(sizes, s), Pow2(sizes[s]), 0, Transmitted(sizes, s));
  }

  /** No earlier symbol's code ends on the way to symbol `s`. */
  lemma {:induction false} NoneLandsOnPath(sizes: seq<nat>, s: nat, level: nat)
    requires NotOversubscribed(sizes) && s < |sizes| && 0 < level <= sizes[s]
    ensures forall t: nat :: !Lands(sizes, s, level, Path(sizes, s, level), t)
  {
    forall t: nat
      ensures !Lands(sizes, s, level, Path(sizes, s, level), t)
    {
      if Lands(sizes, s, level, Path(sizes, s, level), t) {
        FullPath(sizes, t);
        PathOfPath(sizes, s, level, level);
        PrefixIsSelf(sizes, s, t, level);
      }
    }
  }

  /** No symbol with a short code shares its lookup entry with a longer code. */
  lemma {:induction false} NoneShortOnPath(sizes: seq<nat>, s: nat, done: nat)
    requires NotOversubscribed(sizes) && s < |sizes| && sizes[s] > FAST_BITS && done <= |sizes|
    ensures forall t: nat :: !Short(sizes, done, Path(sizes, s, FAST_BITS), t)
  {
    forall t: nat
      ensures !Short(sizes, done, Path(sizes, s, FAST_BITS), t)
    {
      if Short(sizes, done, Path(sizes, s, FAST_BITS), t) {
        PrefixIsSelf(sizes, s, t, FAST_BITS);
      }
    }
  }

  /** The whole code of `s` is not a proper prefix of another code. */
  lemma {:induction false} CodeIsNotInner(sizes: seq<nat>, s: nat, done: nat)
    requires NotOversubscribed(sizes) && s < |sizes| && sizes[s] > 0 && done <= |sizes|
    ensures !Inner(sizes, done, sizes[s], Transmitted(sizes, s))
  {
    if Inner(sizes, done, sizes[s], Transmitted(sizes, s)) {
      var t :| 0 <= t < done && sizes[t] > sizes[s] && Path(sizes, t, sizes[s]) == Transmitted(sizes, s);
      PathOfPath(sizes, t, sizes[s], sizes[s]);
      PrefixIsSelf(sizes, t, s, sizes[s]);
    }
  }

  /** The slot on the way to symbol `s` is either empty or leads on. */
  lemma {:induction false} SlotOnPath(v: int, order: seq<Node>, sizes: seq<nat>, s: nat, level: nat)
    requires NotOversubscribed(sizes) && s < |sizes| && 0 < level <= sizes[s]
    requires SlotHolds(v, order, sizes, s, level, Path(sizes, s, level))
    ensures var node := Node(level, Path(sizes, s, level));
            if node in order then v < 0 && Refers(v, order, node) else v == 0
  {
    NoneLandsOnPath(sizes, s, level);
  }

  lemma {:induction false} LookOnPath(v: int, order: seq<Node>, sizes: seq<nat>, s: nat)
    requires NotOversubscribed(sizes) && s < |sizes| && sizes[s] > FAST_BITS
    requires LookHolds(v, order, sizes, s, Path(sizes, s, FAST_BITS))
    ensures var node := Node(FAST_BITS, Path(sizes, s, FAST_BITS));
            if node in order then v < 0 && Refers(v, order, node) else v == 0
  {
    NoneShortOnPath(sizes, s, s);
  }

  // ---------------------------------------------------------------- one more tree node

  /** What appending a node does to the slots of other prefixes. */
  lemma {:induction false} SlotAfterAppend(v: int, order: seq<Node>, node: Node, sizes: seq<nat>, done: nat, level: nat, path: nat)
    requires done <= |sizes| && node !in order && node != Node(level, path)
    requires SlotHolds(v, order, sizes, done, level, path)
    ensures SlotHolds(v, order + [node], sizes, done, level, path)
  {
    if Node(level, path) in order {
      var j :| 0 <= j < |order| && order[j] == Node(level, path) && v == -1 - 2 * j;
      assert (order + [node])[j] == Node(level, path);
    }
  }

  lemma {:induction false} LookAfterAppend(v: int, order: seq<Node>, node: Node, sizes: seq<nat>, done: nat, x: nat)
    requires done <= |sizes| && node !in order && node != Node(FAST_BITS, x)
    requires LookHolds(v, order, sizes, done, x)
    ensures LookHolds(v, order + [node], sizes, done, x)
  {
    if Node(FAST_BITS, x) in order {
      var j :| 0 <= j < |order| && order[j] == Node(FAST_BITS, x) && v == -1 - 2 * j;
      assert (order + [node])[j] == Node(FAST_BITS, x);
    }
  }

  /** Below a prefix that had no node before, nothing is stored. */
  lemma {:induction false} NothingBelow(order: seq<Node>, sizes: seq<nat>, s: nat, k: nat, node: Node, path: nat)
    requires s <= |sizes| && KeysOk(order, sizes, s, k) && k <= node.level
    requires node !in order && node.level >= FAST_BITS
    requires path % Pow2(node.level) == node.path
    ensures SlotHolds(0, order + [node], sizes, s, node.level + 1, path)
  {
    assert !Known(sizes, s, k, node.level, node.path);
    if Node(node.level + 1, path) in order {
      assert Known(sizes, s, k, node.level + 1, path);
      var t :| 0 <= t < s && sizes[t] > node.level + 1 && Path(sizes, t, node.level + 1) == path;
      PathOfPath(sizes, t, node.level, node.level + 1);
    }
    assert !Inner(sizes, s, node.level, node.path);
    var below := node.level + 1;
    forall t: nat
      ensures !Lands(sizes, s, below, path, t)
    {
      if t < s {
        assert sizes[t] > node.level ==> Path(sizes, t, node.level) != node.path;
      }
    }
  }

  /** The two slots of node `j`, by the bit that selects them. */
  ghost function SlotPath(node: Node, bit: nat): nat {
    node.path + (if bit == 0 then 0 else Pow2(node.level))
  }

  lemma {:induction false} SlotPathParts(node: Node, bit: nat)
    requires node.path < Pow2(node.level) && bit < 2
    ensures SlotPath(node, bit) % Pow2(node.level) == node.path
    ensures SlotPath(node, bit) / Pow2(node.level) == bit
  {
    DivModUnique(SlotPath(node, bit), Pow2(node.level), bit, node.path);
  }

  /** Different slots stand for different prefixes. */
  lemma {:induction false} SlotsDiffer(a: Node, b: Node, bit: nat, bit': nat)
    requires a.path < Pow2(a.level) && b.path < Pow2(b.level) && bit < 2 && bit' < 2
    requires Node(a.level + 1, SlotPath(a, bit)) == Node(b.level + 1, SlotPath(b, bit'))
    ensures a == b && bit == bit'
  {
    SlotPathParts(a, bit);
    SlotPathParts(b, bit');
  }

  lemma {:induction false} PathsInRange(order: seq<Node>, sizes: seq<nat>, s: nat, k: nat)
    requires s <= |sizes| && KeysOk(order, sizes, s, k)
    ensures forall j | 0 <= j < |order| :: order[j].path < Pow2(order[j].level) && order[j].level >= FAST_BITS
  {
    forall j | 0 <= j < |order|
      ensures order[j].path < Pow2(order[j].level) && order[j].level >= FAST_BITS
    {
      assert Node(order[j].level, order[j].path) in order;
      assert Known(sizes, s, k, order[j].level, order[j].path);
    }
  }

  lemma {:induction false} KeysAfterAppend(order: seq<Node>, sizes: seq<nat>, s: nat, k: nat)
    requires s < |sizes| && KeysOk(order, sizes, s, k) && k + 1 >= FAST_BITS
    ensures KeysOk(order + [Node(k + 1, Path(sizes, s, k + 1))], sizes, s, k + 1)
  {
    var node := Node(k + 1, Path(sizes, s, k + 1));
    forall level: nat, path: nat
      ensures Node(level, path) in order + [node] <==> Known(sizes, s, k + 1, level, path)
    {
      assert Node(level, path) in order + [node] <==> Node(level, path) in order || Node(level, path) == node;
      assert Node(level, path) in order <==> Known(sizes, s, k, level, path);
    }
  }

  lemma {:induction false} KeysUnchanged(order: seq<Node>, sizes: seq<nat>, s: nat, k: nat)
    requires s < |sizes| && KeysOk(order, sizes, s, k) && Node(k + 1, Path(sizes, s, k + 1)) in order
    ensures KeysOk(order, sizes, s, k + 1)
  {
    assert Known(sizes, s, k, k + 1, Path(sizes, s, k + 1));
    forall level: nat, path: nat
      ensures Node(level, path) in order <==> Known(sizes, s, k + 1, level, path)
    {
      assert Node(level, path) in order <==> Known(sizes, s, k, level, path);
    }
  }

  /** An empty lookup entry receives a reference to a new root node. */
  lemma {:induction false} NewRoot(look: seq<Int16>, tree: seq<Int16>, order: seq<Node>, sizes: seq<nat>, s: nat)
    requires State(look, tree, order, sizes, s, FAST_BITS - 1) && s < |sizes| && sizes[s] > FAST_BITS
    requires Path(sizes, s, FAST_BITS) < FAST_SIZE && Node(FAST_BITS, Path(sizes, s, FAST_BITS)) !in order
    requires 2 * |order| + 2 <= |tree|
    ensures State(look[Path(sizes, s, FAST_BITS) := -1 - 2 * |order|], tree,
                  order + [Node(FAST_BITS, Path(sizes, s, FAST_BITS))], sizes, s, FAST_BITS)
  {
    var x := Path(sizes, s, FAST_BITS);
    var node := Node(FAST_BITS, x);
    var order' := order + [node];
    var look' := look[x := -1 - 2 * |order|];
    KeysAfterAppend(order, sizes, s, FAST_BITS - 1);
    forall y | 0 <= y < |look'|
      ensures LookHolds(look'[y], order', sizes, s, y)
    {
      if y == x {
        assert order'[|order|] == node;
      } else {
        LookAfterAppend(look[y], order, node, sizes, s, y);
      }
    }
    PathsInRange(order, sizes, s, FAST_BITS - 1);
    AppendKeepsTree(tree, order, node, sizes, s, FAST_BITS - 1, |order|, 0);
  }

  /** The tree after `node` was appended, apart from the slot (`at`, `bit`) that refers to it. */
  lemma {:induction false} AppendKeepsTree(tree: seq<Int16>, order: seq<Node>, node: Node, sizes: seq<nat>, s: nat, k: nat,
                                           at: nat, bit: nat)
    requires s <= |sizes| && TreeHolds(tree, order, sizes, s) && KeysOk(order, sizes, s, k) && NoDuplicates(order)
    requires node !in order && k <= node.level && node.level >= FAST_BITS && node.path < Pow2(node.level)
    requires 2 * |order| + 2 <= |tree| == 2 * MAX_SYMBOLS && at <= |order| && bit < 2
    requires forall j | 0 <= j < |order| :: order[j].path < Pow2(order[j].level)
    requires if at == |order| then node.level == FAST_BITS && forall j | 0 <= j < |order| :: order[j].level >= FAST_BITS
             else node == Node(order[at].level + 1, SlotPath(order[at], bit))
    ensures var tree' := if at == |order| then tree else tree[2 * at + bit := -1 - 2 * |order|];
            TreeHolds(tree', order + [node], sizes, s)
  {
    hide KeysOk, NoDuplicates, SlotHolds;
    var order' := order + [node];
    var tree': seq<Int16> := if at == |order| then tree else tree[2 * at + bit := -1 - 2 * |order|];
    assert order'[|order|] == node;
    forall j | 0 <= j < |order'|
      ensures NodeHolds(tree', order', sizes, s, j)
    {
      if j == |order| {
        NewNodeHolds(tree', order, node, sizes, s, k);
      } else {
        assert NodeHolds(tree, order, sizes, s, j);
        SlotKept(tree, tree', order, node, sizes, s, at, bit, j, 0);
        SlotKept(tree, tree', order, node, sizes, s, at, bit, j, 1);
      }
    }
  }

  lemma {:induction false} NewNodeHolds(tree: seq<Int16>, order: seq<Node>, node: Node, sizes: seq<nat>, s: nat, k: nat)
    requires s <= |sizes| && KeysOk(order, sizes, s, k)
    requires node !in order && k <= node.level && node.level >= FAST_BITS && node.path < Pow2(node.level)
    requires 2 * |order| + 2 <= |tree| && tree[2 * |order|] == 0 && tree[2 * |order| + 1] == 0
    ensures NodeHolds(tree, order + [node], sizes, s, |order|)
  {
    hide KeysOk, SlotHolds;
    assert (order + [node])[|order|] == node;
    SlotPathParts(node, 0);
    SlotPathParts(node, 1);
    NothingBelow(order, sizes, s, k, node, SlotPath(node, 0));
    NothingBelow(order, sizes, s, k, node, SlotPath(node, 1));
  }

  lemma {:induction false} SlotKept(tree: seq<Int16>, tree': seq<Int16>, order: seq<Node>, node: Node, sizes: seq<nat>, s: nat,
                                    at: nat, bit: nat, j: nat, b: nat)
    requires s <= |sizes| && NoDuplicates(order) && node !in order && node.path < Pow2(node.level)
    requires 2 * |order| + 2 <= |tree| == 2 * MAX_SYMBOLS && at <= |order| && bit < 2 && j < |order| && b < 2
    requires forall i | 0 <= i < |order| :: order[i].path < Pow2(order[i].level)
    requires if at == |order| then tree' == tree && node.level <= order[j].level
             else node == Node(order[at].level + 1, SlotPath(order[at], bit)) && tree' == tree[2 * at + bit := -1 - 2 * |order|]
    requires SlotHolds(tree[2 * j + b], order, sizes, s, order[j].level + 1, SlotPath(order[j], b))
    ensures SlotHolds(tree'[2 * j + b], order + [node], sizes, s, order[j].level + 1, SlotPath(order[j], b))
  {
    if node == Node(order[j].level + 1, SlotPath(order[j], b)) {
      SlotsDiffer(order[at], order[j], bit, b);
      assert (order + [node])[|order|] == node;
    } else {
      SlotAfterAppend(tree[2 * j + b], order, node, sizes, s, order[j].level + 1, SlotPath(order[j], b));
    }
  }

  /** An empty slot of node `at` receives a reference to a new child. */
  lemma {:induction false} NewChild(look: seq<Int16>, tree: seq<Int16>, order: seq<Node>, sizes: seq<nat>, s: nat, k: nat,
                                    at: nat, bit: nat)
    requires State(look, tree, order, sizes, s, k) && s < |sizes| && FAST_BITS <= k && k + 1 < sizes[s]
    requires at < |order| && order[at] == Node(k, Path(sizes, s, k)) && bit < 2
    requires Path(sizes, s, k + 1) == SlotPath(order[at], bit)
    requires Node(k + 1, Path(sizes, s, k + 1)) !in order && 2 * |order| + 2 <= |tree|
    ensures State(look, tree[2 * at + bit := -1 - 2 * |order|],
                  order + [Node(k + 1, Path(sizes, s, k + 1))], sizes, s, k + 1)
  {
    var node := Node(k + 1, Path(sizes, s, k + 1));
    KeysAfterAppend(order, sizes, s, k);
    PathsInRange(order, sizes, s, k);
    AppendKeepsTree(tree, order, node, sizes, s, k, at, bit);
    forall y | 0 <= y < |look|
      ensures LookHolds(look[y], order + [node], sizes, s, y)
    {
      LookAfterAppend(look[y], order, node, sizes, s, y);
    }
  }

  /** The last bit of a long code: the slot receives the symbol. */
  lemma {:induction false} StoreSymbol(look: seq<Int16>, tree: seq<Int16>, order: seq<Node>, sizes: seq<nat>, s: nat,
                                       at: nat, bit: nat)
    requires s < |sizes| && sizes[s] > FAST_BITS && State(look, tree, order, sizes, s, sizes[s] - 1)
    requires at < |order| && order[at] == Node(sizes[s] - 1, Path(sizes, s, sizes[s] - 1)) && bit < 2
    requires Transmitted(sizes, s) == SlotPath(order[at], bit)
    requires 2 * |order| <= |tree|
    ensures State(look, tree[2 * at + bit := s], order, sizes, s + 1, FAST_BITS - 1)
  {
    var tree': seq<Int16> := tree[2 * at + bit := s];
    KeysAfterSymbol(order, sizes, s);
    PathsInRange(order, sizes, s, sizes[s] - 1);
    NotANode(order, sizes, s);
    FullPath(sizes, s);
    NoneLandsOnPath(sizes, s, sizes[s]);
    hide KeysOk, NoDuplicates, SlotHolds;
    SlotsAfterSymbol(tree, tree', order, sizes, s, at, bit);
    LooksAfterSymbol(look, order, sizes, s);
  }

  lemma {:induction false} LooksAfterSymbol(look: seq<Int16>, order: seq<Node>, sizes: seq<nat>, s: nat)
    requires s < |sizes| && (sizes[s] > FAST_BITS || sizes[s] == 0) && LookupHolds(look, order, sizes, s)
    ensures LookupHolds(look, order, sizes, s + 1)
  {
    hide LookHolds;
    forall x | 0 <= x < |look|
      ensures LookHolds(look[x], order, sizes, s + 1, x)
    {
      LookAfterLongSymbol(look[x], order, sizes, s, x);
    }
  }

  lemma {:induction false} SlotsAfterSymbol(tree: seq<Int16>, tree': seq<Int16>, order: seq<Node>, sizes: seq<nat>, s: nat,
                                            at: nat, bit: nat)
    requires s < |sizes| && NoDuplicates(order) && Node(sizes[s], Transmitted(sizes, s)) !in order
    requires TreeHolds(tree, order, sizes, s) && at < |order| && bit < 2
    requires forall i | 0 <= i < |order| :: order[i].path < Pow2(order[i].level)
    requires Node(sizes[s], Transmitted(sizes, s)) == Node(order[at].level + 1, SlotPath(order[at], bit))
    requires s < 0x8000 && tree' == tree[2 * at + bit := s]
    requires forall t: nat :: !Lands(sizes, s, sizes[s], Transmitted(sizes, s), t)
    ensures TreeHolds(tree', order, sizes, s + 1)
  {
    hide NoDuplicates, SlotHolds;
    var done := s + 1;
    forall j | 0 <= j < |order|
      ensures NodeHolds(tree', order, sizes, done, j)
    {
      assert NodeHolds(tree, order, sizes, s, j);
      SlotAfterSymbol(tree, tree', order, sizes, s, at, bit, j, 0);
      SlotAfterSymbol(tree, tree', order, sizes, s, at, bit, j, 1);
    }
  }

  lemma {:induction false} NotANode(order: seq<Node>, sizes: seq<nat>, s: nat)
    requires s < |sizes| && sizes[s] > 0 && NotOversubscribed(sizes) && KeysOk(order, sizes, s, sizes[s] - 1)
    ensures Node(sizes[s], Transmitted(sizes, s)) !in order
  {
    CodeIsNotInner(sizes, s, s);
    assert !Known(sizes, s, sizes[s] - 1, sizes[s], Transmitted(sizes, s));
  }

  lemma {:induction false} KeysAfterSymbol(order: seq<Node>, sizes: seq<nat>, s: nat)
    requires s < |sizes| && sizes[s] > 0 && KeysOk(order, sizes, s, sizes[s] - 1)
    ensures KeysOk(order, sizes, s + 1, FAST_BITS - 1)
  {
    forall level: nat, path: nat
      ensures Node(level, path) in order <==> Known(sizes, s + 1, FAST_BITS - 1, level, path)
    {
      assert Node(level, path) in order <==> Known(sizes, s, sizes[s] - 1, level, path);
    }
  }

  lemma {:induction false} SlotAfterSymbol(tree: seq<Int16>, tree': seq<Int16>, order: seq<Node>, sizes: seq<nat>, s: nat,
                                           at: nat, bit: nat, j: nat, b: nat)
    requires s < |sizes| && NoDuplicates(order) && Node(sizes[s], Transmitted(sizes, s)) !in order
    requires 2 * |order| <= |tree| && at < |order| && bit < 2 && j < |order| && b < 2
    requires forall i | 0 <= i < |order| :: order[i].path < Pow2(order[i].level)
    requires Node(sizes[s], Transmitted(sizes, s)) == Node(order[at].level + 1, SlotPath(order[at], bit))
    requires s < 0x8000 && tree' == tree[2 * at + bit := s]
    requires SlotHolds(tree[2 * j + b], order, sizes, s, order[j].level + 1, SlotPath(order[j], b))
    requires forall t: nat :: !Lands(sizes, s, sizes[s], Transmitted(sizes, s), t)
    ensures SlotHolds(tree'[2 * j + b], order, sizes, s + 1, order[j].level + 1, SlotPath(order[j], b))
  {
    var level, path := order[j].level + 1, SlotPath(order[j], b);
    if Node(level, path) == Node(sizes[s], Transmitted(sizes, s)) {
      SlotsDiffer(order[at], order[j], bit, b);
      assert at == j && tree'[2 * j + b] == s;
      assert Lands(sizes, s + 1, level, path, s);
      var done := s + 1;
      assert forall t: nat :: Lands(sizes, done, level, path, t) ==> t == s || Lands(sizes, s, level, path, t);
    } else {
      assert 2 * j + b != 2 * at + bit;
      SlotUnaffected(tree[2 * j + b], order, sizes, s, level, path);
    }
  }

  lemma {:induction false} SlotUnaffected(v: int, order: seq<Node>, sizes: seq<nat>, s: nat, level: nat, path: nat)
    requires s < |sizes| && SlotHolds(v, order, sizes, s, level, path)
    requires sizes[s] != level || Transmitted(sizes, s) != path
    ensures SlotHolds(v, order, sizes, s + 1, level, path)
  {
    if v != 0 && Node(level, path) !in order {
      var t: nat :| Lands(sizes, s, level, path, t);
      assert Lands(sizes, s + 1, level, path, t);
    }
    var done := s + 1;
    assert forall t: nat :: Lands(sizes, done, level, path, t) ==> Lands(sizes, s, level, path, t);
  }

  lemma {:induction false} LookAfterLongSymbol(v: int, order: seq<Node>, sizes: seq<nat>, s: nat, x: nat)
    requires s < |sizes| && (sizes[s] > FAST_BITS || sizes[s] == 0) && LookHolds(v, order, sizes, s, x)
    ensures LookHolds(v, order, sizes, s + 1, x)
  {
    if v != 0 && Node(FAST_BITS, x) !in order {
      var t: nat :| Short(sizes, s, x, t);
      assert Short(sizes, s + 1, x, t);
    }
    var done := s + 1;
    assert forall t: nat :: Short(sizes, done, x, t) ==> Short(sizes, s, x, t);
  }
}
