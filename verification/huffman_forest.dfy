/** The history of a two-queue Huffman construction, kept apart from the array it is stored in.

    Leaves (sorted input weights) and internal nodes (made so far) form two queues. Each pick removes
    the head of one queue; every two picks make one internal node, appended to the second queue. */
module HuffmanForest {

  /** `weights`: the leaves; `sums`: the weights of the internal nodes made so far;
      `taken[m]`: how many of the first `m` picks were internal nodes;
      `parent`, `leafParent`: for every picked node, the internal node it was merged into. */
  datatype Log = Log(weights: seq<nat>, sums: seq<nat>, taken: seq<nat>, parent: seq<nat>, leafParent: seq<nat>) {
    ghost function Picks(): int {
      |taken| - 1
    }
  }

  ghost function Start(weights: seq<nat>): Log {
    Log(weights, [], [0], [], [])
  }

  ghost predicate StepOk(g: Log, m: nat)
    requires m < g.Picks()
  {
    && g.taken[m] <= g.taken[m + 1] <= g.taken[m] + 1
    && g.taken[m + 1] <= m / 2
    && g.taken[m + 1] <= |g.parent|
    && m + 1 - g.taken[m + 1] <= |g.leafParent|
    && (g.taken[m + 1] == g.taken[m] + 1 ==> g.parent[g.taken[m]] == m / 2)
    && (g.taken[m + 1] == g.taken[m] ==> g.leafParent[m - g.taken[m]] == m / 2)
  }

  ghost predicate Recorded(g: Log) {
    && g.Picks() >= 0
    && g.taken[0] == 0
    && 2 * |g.sums| <= g.Picks() <= 2 * |g.sums| + 2
    && |g.parent| == g.taken[g.Picks()]
    && |g.leafParent| == g.Picks() - g.taken[g.Picks()] <= |g.weights|
    && forall m | 0 <= m < g.Picks() :: StepOk(g, m)
  }

  ghost predicate Internal(g: Log, m: nat)
    requires Recorded(g) && m < g.Picks()
  {
    g.taken[m + 1] == g.taken[m] + 1
  }

  /** The weight of the node removed by pick `m`. */
  ghost function Item(g: Log, m: nat): nat
    requires Recorded(g) && m < g.Picks()
  {
    assert StepOk(g, m);
    if Internal(g, m) then g.sums[g.taken[m]] else g.weights[m - g.taken[m]]
  }

  ghost predicate Summed(g: Log)
    requires Recorded(g)
  {
    forall k | 0 <= k < |g.sums| :: g.sums[k] == Item(g, 2 * k) + Item(g, 2 * k + 1)
  }

  ghost predicate Sorted(g: Log)
    requires Recorded(g)
  {
    forall m, m' | 0 <= m <= m' < g.Picks() :: Item(g, m) <= Item(g, m')
  }

  /** No waiting node is lighter than the last one picked. */
  ghost predicate HeadsOk(g: Log)
    requires Recorded(g)
  {
    g.Picks() > 0 ==>
      && (|g.parent| < |g.sums| ==> Item(g, g.Picks() - 1) <= g.sums[|g.parent|])
      && (|g.leafParent| < |g.weights| ==> Item(g, g.Picks() - 1) <= g.weights[|g.leafParent|])
  }

  ghost predicate Ascending(s: seq<nat>) {
    forall i, j | 0 <= i <= j < |s| :: s[i] <= s[j]
  }

  ghost predicate Greedy(g: Log) {
    Recorded(g) && Ascending(g.weights) && Summed(g) && Sorted(g) && HeadsOk(g)
  }

  // ---------------------------------------------------------------- the three moves

  ghost function TakeInternal(g: Log): Log
    requires Recorded(g)
  {
    g.(taken := g.taken + [g.taken[g.Picks()] + 1], parent := g.parent + [g.Picks() / 2])
  }

  ghost function TakeLeaf(g: Log): Log
    requires Recorded(g)
  {
    g.(taken := g.taken + [g.taken[g.Picks()]], leafParent := g.leafParent + [g.Picks() / 2])
  }

  ghost function MakeNode(g: Log): Log
    requires Recorded(g) && g.Picks() == 2 * |g.sums| + 2
  {
    g.(sums := g.sums + [Item(g, g.Picks() - 2) + Item(g, g.Picks() - 1)])
  }

  /** `h` extends `g` by one pick or one node and agrees with it on everything older. */
  lemma {:induction false} OlderItems(g: Log, h: Log)
    requires Recorded(g) && Recorded(h)
    requires g.weights == h.weights && g.sums <= h.sums && g.taken <= h.taken
    ensures forall m | 0 <= m < g.Picks() :: Item(h, m) == Item(g, m)
  {
    forall m | 0 <= m < g.Picks()
      ensures Item(h, m) == Item(g, m)
    {
      assert StepOk(g, m) && StepOk(h, m);
    }
  }

  lemma {:induction false} SumsAscending(g: Log)
    requires Recorded(g) && Summed(g) && Sorted(g)
    ensures Ascending(g.sums)
  {
    forall i, j | 0 <= i <= j < |g.sums|
      ensures g.sums[i] <= g.sums[j]
    {
      assert Item(g, 2 * i) <= Item(g, 2 * j) && Item(g, 2 * i + 1) <= Item(g, 2 * j + 1);
    }
  }

  lemma {:induction false} TakeInternalRecorded(g: Log)
    requires Recorded(g) && g.Picks() <= 2 * |g.sums| + 1 && |g.parent| < |g.sums|
    ensures Recorded(TakeInternal(g))
    ensures Item(TakeInternal(g), g.Picks()) == g.sums[|g.parent|]
  {
    var h := TakeInternal(g);
    var p := g.Picks();
    forall m | 0 <= m < h.Picks()
      ensures StepOk(h, m)
    {
      if m < p {
        assert StepOk(g, m);
      } else {
        assert h.taken[m] == |g.parent| && h.taken[m + 1] == |g.parent| + 1;
      }
    }
  }

  lemma {:induction false} TakeLeafRecorded(g: Log)
    requires Recorded(g) && g.Picks() <= 2 * |g.sums| + 1 && |g.leafParent| < |g.weights|
    ensures Recorded(TakeLeaf(g))
    ensures Item(TakeLeaf(g), g.Picks()) == g.weights[|g.leafParent|]
  {
    var h := TakeLeaf(g);
    var p := g.Picks();
    if p > 0 {
      assert StepOk(g, p - 1);
    }
    forall m | 0 <= m < h.Picks()
      ensures StepOk(h, m)
    {
      if m < p {
        assert StepOk(g, m);
      } else {
        assert h.taken[m] == |g.parent| && h.taken[m + 1] == |g.parent|;
      }
    }
  }

  lemma {:induction false} TakeInternalGreedy(g: Log)
    requires Greedy(g) && g.Picks() <= 2 * |g.sums| + 1 && |g.parent| < |g.sums|
    requires |g.leafParent| < |g.weights| ==> g.sums[|g.parent|] <= g.weights[|g.leafParent|]
    ensures Greedy(TakeInternal(g))
    ensures Item(TakeInternal(g), g.Picks()) == g.sums[|g.parent|]
  {
    var h := TakeInternal(g);
    TakeInternalRecorded(g);
    OlderItems(g, h);
    SumsAscending(g);
  }

  lemma {:induction false} TakeLeafGreedy(g: Log)
    requires Greedy(g) && g.Picks() <= 2 * |g.sums| + 1 && |g.leafParent| < |g.weights|
    requires |g.parent| < |g.sums| ==> g.weights[|g.leafParent|] <= g.sums[|g.parent|]
    ensures Greedy(TakeLeaf(g))
    ensures Item(TakeLeaf(g), g.Picks()) == g.weights[|g.leafParent|]
  {
    var h := TakeLeaf(g);
    TakeLeafRecorded(g);
    OlderItems(g, h);
  }

  lemma {:induction false} MakeNodeGreedy(g: Log)
    requires Recorded(g) && Greedy(g) && g.Picks() == 2 * |g.sums| + 2
    ensures Recorded(MakeNode(g)) && Greedy(MakeNode(g))
  {
    var h := MakeNode(g);
    forall m | 0 <= m < h.Picks()
      ensures StepOk(h, m)
    {
      assert StepOk(g, m);
    }
    OlderItems(g, h);
  }
}
