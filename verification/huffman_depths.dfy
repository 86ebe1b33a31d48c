/** What a complete two-queue construction means: depths of the tree it built, the Kraft sum of the
    leaf depths, their optimality, and the Fibonacci bound on the deepest leaf. */
module HuffmanDepths {
  import opened Powers
  import opened PrefixCode
  import opened HuffmanForest

  /** Every leaf was merged and a single internal node is left. */
  ghost predicate Complete(g: Log) {
    && Recorded(g) && Greedy(g)
    && |g.weights| >= 2 && |g.sums| == |g.weights| - 1 && g.Picks() == 2 * |g.sums|
  }

  lemma {:induction false} InternalPickedAt(g: Log, i: nat, from: nat) returns (m: nat)
    requires Recorded(g) && i < |g.parent| && from < g.Picks() && g.taken[from] <= i
    ensures from <= m < g.Picks() && g.taken[m] == i && g.taken[m + 1] == i + 1
    ensures g.parent[i] == m / 2 && i < m / 2 && Item(g, m) == g.sums[i]
    ensures forall q | from <= q <= m :: g.taken[q] <= i
  {
    m := from;
    while g.taken[m + 1] <= i
      invariant from <= m < g.Picks() && forall q | from <= q <= m :: g.taken[q] <= i
      decreases g.Picks() - m
    {
      assert StepOk(g, m);
      m := m + 1;
    }
    assert StepOk(g, m);
  }

  lemma {:induction false} LeafPickedAt(g: Log, j: nat, from: nat) returns (m: nat)
    requires Recorded(g) && j < |g.leafParent| && from < g.Picks() && from - g.taken[from] <= j
    ensures from <= m < g.Picks() && m - g.taken[m] == j && g.taken[m + 1] == g.taken[m]
    ensures g.leafParent[j] == m / 2 && Item(g, m) == g.weights[j]
    ensures forall q | from <= q <= m :: q - g.taken[q] <= j
  {
    m := from;
    while m + 1 - g.taken[m + 1] <= j
      invariant from <= m < g.Picks() && forall q | from <= q <= m :: q - g.taken[q] <= j
      decreases g.Picks() - m
    {
      assert StepOk(g, m);
      m := m + 1;
    }
    assert StepOk(g, m);
  }

  /** Each node's parent comes after it, and the last node has none. */
  ghost predicate Rooted(parent: seq<nat>) {
    forall i | 0 <= i < |parent| :: i < parent[i] <= |parent|
  }

  lemma {:induction false} CompleteSizes(g: Log)
    requires Complete(g)
    ensures |g.parent| == |g.weights| - 2 && |g.leafParent| == |g.weights|
    ensures Rooted(g.parent)
    ensures forall j | 0 <= j < |g.leafParent| :: g.leafParent[j] <= |g.parent|
  {
    assert StepOk(g, g.Picks() - 1);
    forall i | 0 <= i < |g.parent|
      ensures i < g.parent[i] <= |g.parent|
    {
      var m := InternalPickedAt(g, i, 0);
    }
    forall j | 0 <= j < |g.leafParent|
      ensures g.leafParent[j] <= |g.parent|
    {
      var m := LeafPickedAt(g, j, 0);
    }
  }

  ghost function Depth(parent: seq<nat>, i: nat): nat
    requires Rooted(parent) && i <= |parent|
    decreases |parent| - i
  {
    if i == |parent| then 0 else 1 + Depth(parent, parent[i])
  }

  ghost function Depths(parent: seq<nat>): (ds: seq<nat>)
    requires Rooted(parent)
    ensures |ds| == |parent| + 1
    ensures forall i | 0 <= i <= |parent| :: ds[i] == Depth(parent, i)
  {
    seq(|parent| + 1, i requires 0 <= i <= |parent| => Depth(parent, i))
  }

  /** The depth of every leaf of the tree. */
  ghost function LeafDepths(g: Log): (ls: seq<nat>)
    requires Complete(g)
    ensures |ls| == |g.weights|
  {
    CompleteSizes(g);
    seq(|g.weights|, j requires 0 <= j < |g.weights| => 1 + Depth(g.parent, g.leafParent[j]))
  }

  // ---------------------------------------------------------------- the waiting nodes at every stage

  /** The values of the nodes waiting after `m` picks and `s` merges: internal ones, then leaves. */
  ghost function Wait(g: Log, internal: seq<nat>, leaf: seq<nat>, m: nat, s: nat): seq<nat>
    requires Complete(g) && |internal| == |g.sums| && |leaf| == |g.weights|
    requires m <= g.Picks() && g.taken[m] <= s <= |internal| && g.taken[m] <= m && m - g.taken[m] <= |leaf|
  {
    internal[g.taken[m]..s] + leaf[m - g.taken[m]..]
  }

  lemma {:induction false} TakenBounds(g: Log, m: nat)
    requires Complete(g) && m <= g.Picks()
    ensures 0 <= m - g.taken[m] <= |g.weights|
    ensures g.taken[m] <= m / 2
    ensures m > 0 ==> g.taken[m] <= (m - 1) / 2
    ensures m < g.Picks() ==> g.taken[m] <= g.taken[m + 1] <= g.taken[m] + 1 && g.taken[m + 1] <= m / 2
  {
    if m < g.Picks() {
      assert StepOk(g, m);
    }
    if m > 0 {
      assert StepOk(g, m - 1);
    }
  }

  /** Where pick `m` sits among the waiting nodes. */
  ghost function PickPosition(g: Log, m: nat): nat
    requires Complete(g) && m < g.Picks()
  {
    TakenBounds(g, m);
    if Internal(g, m) then 0 else m / 2 - g.taken[m]
  }

  lemma {:induction false} WaitAfterPick(g: Log, internal: seq<nat>, leaf: seq<nat>, m: nat)
    requires Complete(g) && |internal| == |g.sums| && |leaf| == |g.weights|
    requires m < g.Picks()
    requires 0 <= m - g.taken[m] <= |g.weights| && g.taken[m] <= m / 2
    requires 0 <= m + 1 - g.taken[m + 1] <= |g.weights| && g.taken[m + 1] <= m / 2
    ensures PickPosition(g, m) < |Wait(g, internal, leaf, m, m / 2)|
    ensures RemoveAt(Wait(g, internal, leaf, m, m / 2), PickPosition(g, m)) == Wait(g, internal, leaf, m + 1, m / 2)
    ensures Wait(g, internal, leaf, m, m / 2)[PickPosition(g, m)]
         == if Internal(g, m) then internal[g.taken[m]] else leaf[m - g.taken[m]]
  {
    assert StepOk(g, m);
    var a := Wait(g, internal, leaf, m, m / 2);
    var t := g.taken[m];
    var n := internal[t..m / 2];
    var l := leaf[m - t..];
    assert a == n + l;
    if Internal(g, m) {
      assert RemoveAt(a, 0) == n[1..] + l;
      assert n[1..] == internal[t + 1..m / 2];
    } else {
      assert RemoveAt(a, |n|) == n + l[1..];
      assert l[1..] == leaf[m + 1 - t..];
    }
  }

  lemma {:induction false} WaitAfterNode(g: Log, internal: seq<nat>, leaf: seq<nat>, m: nat, s: nat)
    requires Complete(g) && |internal| == |g.sums| && |leaf| == |g.weights|
    requires m <= g.Picks() && g.taken[m] <= s < |internal| && 0 <= m - g.taken[m] <= |leaf|
    ensures s - g.taken[m] < |Wait(g, internal, leaf, m, s + 1)|
    ensures RemoveAt(Wait(g, internal, leaf, m, s + 1), s - g.taken[m]) == Wait(g, internal, leaf, m, s)
    ensures Wait(g, internal, leaf, m, s + 1)[s - g.taken[m]] == internal[s]
  {
    var t := g.taken[m];
    var a := Wait(g, internal, leaf, m, s + 1);
    var n := internal[t..s];
    var l := leaf[m - t..];
    assert internal[t..s + 1] == n + [internal[s]];
    assert a == n + [internal[s]] + l;
    assert RemoveAt(a, |n|) == n + l;
  }

  ghost function WaitingWeights(g: Log, m: nat, s: nat): seq<nat>
    requires Complete(g) && m <= g.Picks() && g.taken[m] <= s <= |g.sums|
    requires 0 <= m - g.taken[m] <= |g.weights|
  {
    Wait(g, g.sums, g.weights, m, s)
  }

  ghost function WaitingDepths(g: Log, m: nat, s: nat): seq<nat>
    requires Complete(g) && m <= g.Picks() && g.taken[m] <= s <= |g.sums|
    requires 0 <= m - g.taken[m] <= |g.weights|
  {
    CompleteSizes(g);
    Wait(g, Depths(g.parent), LeafDepths(g), m, s)
  }

  /** All nodes of the tree lie at depth `scale` or above. */
  ghost predicate Shallow(g: Log, scale: nat)
    requires Complete(g)
  {
    CompleteSizes(g);
    AtMost(Depths(g.parent), scale) && AtMost(LeafDepths(g), scale)
  }

  lemma {:induction false} WaitingShallow(g: Log, m: nat, s: nat, scale: nat)
    requires Complete(g) && Shallow(g, scale) && m <= g.Picks() && g.taken[m] <= s <= |g.sums|
    requires 0 <= m - g.taken[m] <= |g.weights|
    ensures |WaitingDepths(g, m, s)| == |WaitingWeights(g, m, s)|
    ensures AtMost(WaitingDepths(g, m, s), scale)
  {
    CompleteSizes(g);
  }

  /** What taking one node out of a waiting list changes. */
  ghost predicate Without(w: seq<nat>, d: seq<nat>, w': seq<nat>, d': seq<nat>, weight: nat, depth: nat, scale: nat) {
    && |w| == |d| && |w'| == |d'| && AtMost(d, scale) && AtMost(d', scale) && depth <= scale
    && WeightedTotal(w, d) == WeightedTotal(w', d') + weight * depth
    && KraftSum(d, scale) == KraftSum(d', scale) + Pow2(scale - depth)
    && multiset(w) == multiset(w') + multiset{weight}
  }

  lemma {:induction false} RemoveIsWithout(w: seq<nat>, d: seq<nat>, p: nat, scale: nat)
    requires |w| == |d| && p < |w| && AtMost(d, scale)
    ensures Without(w, d, RemoveAt(w, p), RemoveAt(d, p), w[p], d[p], scale)
  {
    TotalRemoveAt(w, d, p);
    KraftRemoveAt(d, scale, p);
    MultisetRemoveAt(w, p);
  }

  /** Pick `m` removes a node that hangs one level below internal node `m / 2`. */
  lemma {:induction false} PickEffect(g: Log, m: nat, scale: nat)
    requires Complete(g) && Shallow(g, scale) && m < g.Picks()
    requires 0 <= m - g.taken[m] <= |g.weights| && g.taken[m] <= m / 2
    requires 0 <= m + 1 - g.taken[m + 1] <= |g.weights| && g.taken[m + 1] <= m / 2
    ensures Rooted(g.parent) && m / 2 <= |g.parent|
    ensures Without(WaitingWeights(g, m, m / 2), WaitingDepths(g, m, m / 2),
                    WaitingWeights(g, m + 1, m / 2), WaitingDepths(g, m + 1, m / 2),
                    Item(g, m), Depth(g.parent, m / 2) + 1, scale)
  {
    CompleteSizes(g);
    assert StepOk(g, m);
    var w, d, p := WaitingWeights(g, m, m / 2), WaitingDepths(g, m, m / 2), PickPosition(g, m);
    WaitAfterPick(g, g.sums, g.weights, m);
    WaitAfterPick(g, Depths(g.parent), LeafDepths(g), m);
    assert w[p] == Item(g, m);
    assert d[p] == Depth(g.parent, m / 2) + 1;
    hide *;
    WaitingShallow(g, m, m / 2, scale);
    RemoveIsWithout(w, d, p, scale);
  }

  /** The merge of step `k` adds internal node `k` to the waiting nodes. */
  lemma {:induction false} NodeEffect(g: Log, m: nat, k: nat, scale: nat)
    requires Complete(g) && Shallow(g, scale) && m <= g.Picks() && k < |g.sums|
    requires g.taken[m] <= k && 0 <= m - g.taken[m] <= |g.weights|
    ensures Rooted(g.parent) && k <= |g.parent|
    ensures Without(WaitingWeights(g, m, k + 1), WaitingDepths(g, m, k + 1),
                    WaitingWeights(g, m, k), WaitingDepths(g, m, k),
                    g.sums[k], Depth(g.parent, k), scale)
  {
    CompleteSizes(g);
    var w, d, p := WaitingWeights(g, m, k + 1), WaitingDepths(g, m, k + 1), k - g.taken[m];
    WaitAfterNode(g, g.sums, g.weights, m, k);
    WaitAfterNode(g, Depths(g.parent), LeafDepths(g), m, k);
    assert d[p] == Depth(g.parent, k);
    WaitingShallow(g, m, k + 1, scale);
    RemoveIsWithout(w, d, p, scale);
  }

  /** What pick `m` removes is a lightest waiting node. */
  lemma {:induction false} PickIsMin(g: Log, m: nat)
    requires Complete(g) && m < g.Picks()
    requires 0 <= m - g.taken[m] <= |g.weights| && g.taken[m] <= m / 2
    ensures forall i | g.taken[m] <= i < m / 2 :: Item(g, m) <= g.sums[i]
    ensures forall j | m - g.taken[m] <= j < |g.weights| :: Item(g, m) <= g.weights[j]
  {
    CompleteSizes(g);
    forall i | g.taken[m] <= i < m / 2
      ensures Item(g, m) <= g.sums[i]
    {
      var m' := InternalPickedAt(g, i, m);
    }
    forall j | m - g.taken[m] <= j < |g.weights|
      ensures Item(g, m) <= g.weights[j]
    {
      var m' := LeafPickedAt(g, j, m);
    }
  }

  lemma {:induction false} PickIsMinWaiting(g: Log, m: nat)
    requires Complete(g) && m < g.Picks()
    requires 0 <= m - g.taken[m] <= |g.weights| && g.taken[m] <= m / 2
    ensures forall x | x in WaitingWeights(g, m, m / 2) :: Item(g, m) <= x
  {
    PickIsMin(g, m);
  }

  lemma {:induction false} MergeTotals(w0: seq<nat>, d0: seq<nat>, w1: seq<nat>, d1: seq<nat>, w2: seq<nat>, d2: seq<nat>,
                                       w3: seq<nat>, d3: seq<nat>, x: nat, y: nat, depth: nat, scale: nat)
    requires Without(w0, d0, w1, d1, x, depth + 1, scale)
    requires Without(w1, d1, w2, d2, y, depth + 1, scale)
    requires Without(w3, d3, w2, d2, x + y, depth, scale)
    ensures |w0| == |d0| && |w3| == |d3| && AtMost(d0, scale) && AtMost(d3, scale)
    ensures WeightedTotal(w0, d0) == WeightedTotal(w3, d3) + x + y
    ensures KraftSum(d0, scale) == KraftSum(d3, scale)
  {
    hide WeightedTotal, KraftSum, AtMost;
    assert x * (depth + 1) + y * (depth + 1) == (x + y) * depth + x + y;
    assert Pow2(scale - depth) == 2 * Pow2(scale - depth - 1);
  }

  lemma {:induction false} SmallestIsMin(w: seq<nat>, rest: multiset<nat>, x: nat)
    requires multiset(w) == rest + multiset{x} && forall v | v in w :: x <= v
    ensures multiset(w) != multiset{} && Min(multiset(w)) == x && multiset(w) - multiset{x} == rest
  {
    assert x in multiset(w);
    assert forall v :: v in multiset(w) ==> v in w;
    assert IsMin(multiset(w), x);
  }

  lemma {:induction false} MergeOfMinima(m0: multiset<nat>, m1: multiset<nat>, m2: multiset<nat>, m3: multiset<nat>, x: nat, y: nat)
    requires |m0| >= 2 && m0 != multiset{} && Min(m0) == x && m0 - multiset{x} == m1
    requires m1 != multiset{} && Min(m1) == y && m1 - multiset{y} == m2
    requires var sum: nat := x + y; m3 == m2 + multiset{sum}
    ensures SmallestPair(m0) == x + y && MergeSmallest(m0) == m3
  {
    hide IsMin, Min;
  }

  lemma {:induction false} MergeOfWaiting(w0: seq<nat>, w1: seq<nat>, w2: seq<nat>, w3: seq<nat>, x: nat, y: nat)
    requires multiset(w0) == multiset(w1) + multiset{x} && (forall v | v in w0 :: x <= v)
    requires multiset(w1) == multiset(w2) + multiset{y} && (forall v | v in w1 :: y <= v)
    requires var sum: nat := x + y; multiset(w3) == multiset(w2) + multiset{sum}
    ensures |multiset(w0)| >= 2 && SmallestPair(multiset(w0)) == x + y
    ensures MergeSmallest(multiset(w0)) == multiset(w3)
  {
    hide IsMin, SmallestPair, MergeSmallest, Min;
    SmallestIsMin(w0, multiset(w1), x);
    SmallestIsMin(w1, multiset(w2), y);
    AtLeastTwo(multiset(w0), multiset(w1), multiset(w2), x, y);
    MergeOfMinima(multiset(w0), multiset(w1), multiset(w2), multiset(w3), x, y);
  }

  lemma {:induction false} AtLeastTwo(a: multiset<nat>, b: multiset<nat>, c: multiset<nat>, x: nat, y: nat)
    requires a == b + multiset{x} && b == c + multiset{y}
    ensures |a| >= 2
  {
    assert |a| == |b| + 1;
    assert |b| == |c| + 1;
  }

  lemma {:induction false} MergeWeights(w0: seq<nat>, d0: seq<nat>, w1: seq<nat>, d1: seq<nat>, w2: seq<nat>, d2: seq<nat>,
                                        w3: seq<nat>, d3: seq<nat>, x: nat, y: nat, depth: nat, scale: nat)
    requires Without(w0, d0, w1, d1, x, depth + 1, scale) && (forall v | v in w0 :: x <= v)
    requires Without(w1, d1, w2, d2, y, depth + 1, scale) && (forall v | v in w1 :: y <= v)
    requires Without(w3, d3, w2, d2, x + y, depth, scale)
    ensures |multiset(w0)| >= 2 && SmallestPair(multiset(w0)) == x + y
    ensures MergeSmallest(multiset(w0)) == multiset(w3)
  {
    hide WeightedTotal, KraftSum, AtMost, Pow2, SmallestPair, MergeSmallest;
    MergeOfWaiting(w0, w1, w2, w3, x, y);
  }

  ghost function StageWeights(g: Log, k: nat): seq<nat>
    requires Complete(g) && k <= |g.sums|
  {
    TakenBounds(g, 2 * k);
    WaitingWeights(g, 2 * k, k)
  }

  ghost function StageDepths(g: Log, k: nat): seq<nat>
    requires Complete(g) && k <= |g.sums|
  {
    TakenBounds(g, 2 * k);
    WaitingDepths(g, 2 * k, k)
  }

  lemma {:induction false} StepBounds(g: Log, k: nat)
    requires Complete(g) && k < |g.sums|
    ensures 2 * k + 2 <= g.Picks() && Recorded(g)
    ensures g.sums[k] == Item(g, 2 * k) + Item(g, 2 * k + 1)
    ensures g.taken[2 * k] <= k && 0 <= 2 * k - g.taken[2 * k] <= |g.weights|
    ensures g.taken[2 * k + 1] <= k && 0 <= 2 * k + 1 - g.taken[2 * k + 1] <= |g.weights|
    ensures g.taken[2 * k + 2] <= k && 0 <= 2 * k + 2 - g.taken[2 * k + 2] <= |g.weights|
  {
    TakenBounds(g, 2 * k);
    TakenBounds(g, 2 * k + 1);
    TakenBounds(g, 2 * k + 2);
  }

  lemma {:induction false} PickOfStep(g: Log, k: nat, m: nat, scale: nat)
    requires Complete(g) && Shallow(g, scale) && k < |g.sums| && m / 2 == k
    ensures m < g.Picks() && Recorded(g) && Rooted(g.parent) && k <= |g.parent|
    ensures g.taken[m] <= k && 0 <= m - g.taken[m] <= |g.weights|
    ensures g.taken[m + 1] <= k && 0 <= m + 1 - g.taken[m + 1] <= |g.weights|
    ensures Without(WaitingWeights(g, m, k), WaitingDepths(g, m, k),
                    WaitingWeights(g, m + 1, k), WaitingDepths(g, m + 1, k),
                    Item(g, m), Depth(g.parent, k) + 1, scale)
    ensures forall v | v in WaitingWeights(g, m, k) :: Item(g, m) <= v
  {
    TakenBounds(g, m);
    TakenBounds(g, m + 1);
    hide Without, Shallow, WaitingWeights, WaitingDepths;
    PickEffect(g, m, scale);
    PickIsMinWaiting(g, m);
  }

  /** The lists before, between and after the two picks of step `k`. */
  lemma {:induction false} StepEffects(g: Log, k: nat, scale: nat)
    returns (w1: seq<nat>, d1: seq<nat>, w2: seq<nat>, d2: seq<nat>, x: nat, y: nat, depth: nat)
    requires Complete(g) && Shallow(g, scale) && k < |g.sums|
    ensures g.sums[k] == x + y
    ensures Without(StageWeights(g, k), StageDepths(g, k), w1, d1, x, depth + 1, scale)
    ensures Without(w1, d1, w2, d2, y, depth + 1, scale)
    ensures Without(StageWeights(g, k + 1), StageDepths(g, k + 1), w2, d2, x + y, depth, scale)
    ensures forall v | v in StageWeights(g, k) :: x <= v
    ensures forall v | v in w1 :: y <= v
  {
    hide *;
    StepBounds(g, k);
    StageIsWaiting(g, k);
    StageIsWaiting(g, k + 1);
    PickOfStep(g, k, 2 * k, scale);
    PickOfStep(g, k, 2 * k + 1, scale);
    NodeEffect(g, 2 * k + 2, k, scale);
    x, y, depth := Item(g, 2 * k), Item(g, 2 * k + 1), Depth(g.parent, k);
    w1, d1 := WaitingWeights(g, 2 * k + 1, k), WaitingDepths(g, 2 * k + 1, k);
    w2, d2 := WaitingWeights(g, 2 * k + 2, k), WaitingDepths(g, 2 * k + 2, k);
  }

  lemma {:induction false} StageIsWaiting(g: Log, k: nat)
    requires Complete(g) && k <= |g.sums|
    ensures g.taken[2 * k] <= k && 0 <= 2 * k - g.taken[2 * k] <= |g.weights|
    ensures StageWeights(g, k) == WaitingWeights(g, 2 * k, k)
    ensures StageDepths(g, k) == WaitingDepths(g, 2 * k, k)
  {
    TakenBounds(g, 2 * k);
  }

  /** Each step of the construction is one greedy merge and keeps the Kraft sum. */
  lemma {:induction false} StageStep(g: Log, k: nat, scale: nat)
    requires Complete(g) && Shallow(g, scale) && k < |g.sums|
    ensures var w0, d0 := StageWeights(g, k), StageDepths(g, k);
            var w3, d3 := StageWeights(g, k + 1), StageDepths(g, k + 1);
            && |w0| == |d0| && |w3| == |d3| && AtMost(d0, scale) && AtMost(d3, scale)
            && WeightedTotal(w0, d0) == WeightedTotal(w3, d3) + g.sums[k]
            && KraftSum(d0, scale) == KraftSum(d3, scale)
            && |multiset(w0)| >= 2 && SmallestPair(multiset(w0)) == g.sums[k]
            && MergeSmallest(multiset(w0)) == multiset(w3)
  {
    hide *;
    var w1, d1, w2, d2, x, y, depth := StepEffects(g, k, scale);
    MergeTotals(StageWeights(g, k), StageDepths(g, k), w1, d1, w2, d2,
                StageWeights(g, k + 1), StageDepths(g, k + 1), x, y, depth, scale);
    MergeWeights(StageWeights(g, k), StageDepths(g, k), w1, d1, w2, d2,
                 StageWeights(g, k + 1), StageDepths(g, k + 1), x, y, depth, scale);
  }

  lemma {:induction false} StageInvariant(g: Log, k: nat, scale: nat)
    requires Complete(g) && Shallow(g, scale) && k <= |g.sums|
    ensures var w, d := StageWeights(g, k), StageDepths(g, k);
            && |w| == |d| && AtMost(d, scale)
            && WeightedTotal(w, d) == GreedyCost(multiset(w))
            && KraftSum(d, scale) == Pow2(scale)
    decreases |g.sums| - k
  {
    hide *;
    if k < |g.sums| {
      StageStep(g, k, scale);
      StageInvariant(g, k + 1, scale);
      GreedyCostStep(multiset(StageWeights(g, k)));
    } else {
      LastStage(g, scale);
    }
  }

  lemma {:induction false} GreedyCostStep(m: multiset<nat>)
    requires |m| >= 2
    ensures GreedyCost(m) == SmallestPair(m) + GreedyCost(MergeSmallest(m))
  {
  }

  lemma {:induction false} LastStage(g: Log, scale: nat)
    requires Complete(g)
    ensures var w, d := StageWeights(g, |g.sums|), StageDepths(g, |g.sums|);
            && |w| == |d| && AtMost(d, scale)
            && WeightedTotal(w, d) == GreedyCost(multiset(w))
            && KraftSum(d, scale) == Pow2(scale)
  {
    var k := |g.sums|;
    CompleteSizes(g);
    assert StageWeights(g, k) == [g.sums[k - 1]];
    assert StageDepths(g, k) == [Depth(g.parent, k - 1)];
    hide StageWeights, StageDepths, Complete;
    SingleRoot(g.sums[k - 1], scale);
  }

  lemma {:induction false} SingleRoot(x: nat, scale: nat)
    ensures AtMost([0], scale) && KraftSum([0], scale) == Pow2(scale)
    ensures WeightedTotal([x], [0]) == 0 == GreedyCost(multiset([x]))
  {
    assert |multiset([x])| == 1;
  }

  /** The leaf depths are a complete prefix code of least weighted total. */
  lemma {:induction false} LeafDepthsOptimal(g: Log, scale: nat)
    requires Complete(g) && Shallow(g, scale)
    ensures AtMost(LeafDepths(g), scale) && KraftSum(LeafDepths(g), scale) == Pow2(scale)
    ensures WeightedTotal(g.weights, LeafDepths(g)) == GreedyCost(multiset(g.weights))
  {
    StageInvariant(g, 0, scale);
    assert StageWeights(g, 0) == g.weights;
    assert StageDepths(g, 0) == LeafDepths(g);
  }

  // ---------------------------------------------------------------- levels of the tree

  /** Exactly the first `r` internal nodes and the first `l` leaves lie at depth `d` or below. */
  ghost predicate Level(g: Log, r: nat, l: nat, d: nat)
    requires Complete(g) && Rooted(g.parent)
  {
    && r <= |g.sums| && l <= |g.weights|
    && (forall i | 0 <= i <= |g.parent| :: i < r <==> Depth(g.parent, i) >= d)
    && (forall j | 0 <= j < |g.weights| :: j < l <==> LeafDepths(g)[j] >= d)
  }

  lemma {:induction false} TopLevel(g: Log)
    requires Complete(g)
    ensures Rooted(g.parent) && Level(g, |g.sums|, |g.weights|, 0)
  {
    CompleteSizes(g);
  }

  lemma {:induction false} NextInternal(g: Log, r: nat, l: nat, d: nat, i: nat)
    requires Complete(g) && Rooted(g.parent) && Level(g, r, l, d) && i <= |g.parent|
    ensures i < g.taken[2 * r] <==> Depth(g.parent, i) >= d + 1
  {
    TakenBounds(g, 2 * r);
    CompleteSizes(g);
    if i < |g.parent| {
      var m := InternalPickedAt(g, i, 0);
      assert (i < g.taken[2 * r]) == (m < 2 * r) by {
        if m < 2 * r && g.taken[2 * r] <= i {
          TakenMonotone(g, m + 1, 2 * r);
        }
      }
    }
  }

  lemma {:induction false} TakenMonotone(g: Log, a: nat, b: nat)
    requires Recorded(g) && a <= b <= g.Picks()
    ensures g.taken[a] <= g.taken[b]
    ensures a - g.taken[a] <= b - g.taken[b]
  {
    if a < b {
      TakenMonotone(g, a, b - 1);
      assert StepOk(g, b - 1);
    }
  }

  lemma {:induction false} NextLeaf(g: Log, r: nat, l: nat, d: nat, j: nat)
    requires Complete(g) && Rooted(g.parent) && Level(g, r, l, d) && j < |g.weights|
    ensures j < 2 * r - g.taken[2 * r] <==> LeafDepths(g)[j] >= d + 1
  {
    TakenBounds(g, 2 * r);
    CompleteSizes(g);
    var m := LeafPickedAt(g, j, 0);
    assert (j < 2 * r - g.taken[2 * r]) == (m < 2 * r) by {
      if m < 2 * r && 2 * r - g.taken[2 * r] <= j {
        TakenMonotone(g, m + 1, 2 * r);
      }
    }
  }

  /** The first `2 * r` picks are exactly the children of the first `r` internal nodes. */
  lemma {:induction false} NextLevel(g: Log, r: nat, l: nat, d: nat)
    requires Complete(g) && Rooted(g.parent) && Level(g, r, l, d)
    ensures 2 * r <= g.Picks() && 0 <= 2 * r - g.taken[2 * r] && Level(g, g.taken[2 * r], 2 * r - g.taken[2 * r], d + 1)
    ensures g.taken[2 * r] <= r && (0 < r ==> g.taken[2 * r] < r)
    ensures 2 * r - g.taken[2 * r] <= l
  {
    TakenBounds(g, 2 * r);
    var r', l' := g.taken[2 * r], 2 * r - g.taken[2 * r];
    forall i | 0 <= i <= |g.parent|
      ensures i < r' <==> Depth(g.parent, i) >= d + 1
    {
      NextInternal(g, r, l, d, i);
    }
    forall j | 0 <= j < |g.weights|
      ensures j < l' <==> LeafDepths(g)[j] >= d + 1
    {
      NextLeaf(g, r, l, d, j);
    }
    assert l < |g.weights| ==> LeafDepths(g)[l] < d;
  }

  lemma {:induction false} DepthsDescend(g: Log, i: nat, j: nat)
    requires Complete(g) && Rooted(g.parent) && i <= j <= |g.parent|
    ensures Depth(g.parent, i) >= Depth(g.parent, j)
    decreases |g.parent| - i
  {
    if i < j < |g.parent| {
      var m := InternalPickedAt(g, i, 0);
      var m' := InternalPickedAt(g, j, m);
      DepthsDescend(g, g.parent[i], g.parent[j]);
    }
  }

  /** A lighter leaf is never higher in the tree than a heavier one. */
  lemma {:induction false} LeafDepthsDescend(g: Log, i: nat, j: nat)
    requires Complete(g) && i <= j < |g.weights|
    ensures LeafDepths(g)[i] >= LeafDepths(g)[j]
  {
    CompleteSizes(g);
    var m := LeafPickedAt(g, i, 0);
    var m' := LeafPickedAt(g, j, m);
    DepthsDescend(g, g.leafParent[i], g.leafParent[j]);
  }

  // ---------------------------------------------------------------- the deepest leaf

  ghost function Fib(n: nat): nat {
    if n < 2 then n else Fib(n - 1) + Fib(n - 2)
  }

  /** A deep node forces a heavy root. */
  lemma {:induction false} DeepIsHeavy(g: Log, i: nat)
    requires Complete(g) && Rooted(g.parent) && i <= |g.parent|
    ensures |g.parent| == |g.sums| - 1 && 2 * i + 1 < g.Picks()
    ensures g.sums[|g.parent|]
         >= Fib(Depth(g.parent, i) + 1) * g.sums[i] + Fib(Depth(g.parent, i)) * Item(g, 2 * i + 1)
    decreases |g.parent| - i
  {
    CompleteSizes(g);
    if i < |g.parent| {
      var p := g.parent[i];
      var d := Depth(g.parent, p);
      DeepIsHeavy(g, p);
      var m := InternalPickedAt(g, i, 0);
      assert g.sums[p] == Item(g, 2 * p) + Item(g, 2 * p + 1);
      assert m == 2 * p || m == 2 * p + 1;
      var c := Item(g, 2 * i + 1);
      assert c <= Item(g, 2 * p) && c <= Item(g, 2 * p + 1);
      HeavyStep(Fib(d + 1), Fib(d), g.sums[p], Item(g, 2 * p + 1), g.sums[i], c);
      assert Fib(d + 2) == Fib(d + 1) + Fib(d);
    }
  }

  /** A deep leaf is light. */
  lemma {:induction false} DeepLeafIsLight(g: Log, j: nat)
    requires Complete(g) && j < |g.weights|
    ensures Fib(LeafDepths(g)[j] + 1) * g.weights[j] <= g.sums[|g.sums| - 1]
  {
    CompleteSizes(g);
    var m := LeafPickedAt(g, j, 0);
    var i := g.leafParent[j];
    var d := Depth(g.parent, i);
    DeepIsHeavy(g, i);
    assert m == 2 * i || m == 2 * i + 1;
    assert g.sums[i] == Item(g, 2 * i) + Item(g, 2 * i + 1) && Item(g, m) <= Item(g, 2 * i + 1);
    LeafStep(Fib(d + 1), Fib(d), g.sums[i], Item(g, 2 * i + 1), g.weights[j]);
    assert Fib(d + 2) == Fib(d + 1) + Fib(d);
  }

  lemma {:induction false} LeafStep(f1: nat, f0: nat, sum: nat, item: nat, w: nat)
    requires sum >= w && item >= w
    ensures f1 * sum + f0 * item >= (f1 + f0) * w
  {
    assert f1 * sum >= f1 * w && f0 * item >= f0 * w;
  }

  lemma {:induction false} HeavyStep(f1: nat, f0: nat, wp: nat, cp: nat, wi: nat, ci: nat)
    requires wp >= wi + ci && cp >= wi
    ensures f1 * wp + f0 * cp >= (f1 + f0) * wi + f1 * ci
  {
    assert f1 * wp >= f1 * (wi + ci);
    assert f0 * cp >= f0 * wi;
  }

  lemma {:induction false} FibMonotone(a: nat, b: nat)
    requires a <= b
    ensures Fib(a) <= Fib(b)
    decreases b
  {
    if a < b {
      FibMonotone(a, b - 1);
    }
  }

  lemma {:induction false} ItemsPositive(g: Log)
    requires Complete(g) && forall j | 0 <= j < |g.weights| :: g.weights[j] >= 1
    ensures forall m | 0 <= m < g.Picks() :: Item(g, m) >= 1
  {
    assert StepOk(g, 0);
    assert Item(g, 0) >= 1;
  }

  lemma {:induction false} DepthBelow22(g: Log, i: nat)
    requires Complete(g) && Rooted(g.parent) && i <= |g.parent|
    requires |g.parent| == |g.sums| - 1 && g.sums[|g.parent|] < 0x10000
    requires forall m | 0 <= m < g.Picks() :: Item(g, m) >= 1
    ensures Depth(g.parent, i) < 22
  {
    hide Fib;
    DeepIsHeavy(g, i);
    var d := Depth(g.parent, i);
    assert g.sums[i] == Item(g, 2 * i) + Item(g, 2 * i + 1);
    FibScaled(d, g.sums[i], Item(g, 2 * i + 1));
    FibFrom25(d + 3);
  }

  lemma {:induction false} FibFrom25(n: nat)
    ensures n >= 25 ==> Fib(n) >= 75025
  {
    hide Fib;
    Fib25();
    if n >= 25 {
      FibMonotone(25, n);
    }
  }

  lemma {:induction false} Fib25()
    ensures Fib(25) == 75025
  {
  }

  lemma {:induction false} FibScaled(d: nat, w: nat, c: nat)
    requires w >= 2 && c >= 1
    ensures Fib(d + 1) * w + Fib(d) * c >= Fib(d + 3)
  {
    assert Fib(d + 1) * w >= Fib(d + 1) * 2;
    assert Fib(d) * c >= Fib(d);
    assert Fib(d + 3) == Fib(d + 2) + Fib(d + 1) && Fib(d + 2) == Fib(d + 1) + Fib(d);
  }

  /** Positive weights that sum to less than 2^16 never put a leaf deeper than level 22. */
  lemma {:induction false} ShallowBelow16Bits(g: Log)
    requires Complete(g) && g.sums[|g.sums| - 1] < 0x10000
    requires forall j | 0 <= j < |g.weights| :: g.weights[j] >= 1
    ensures Shallow(g, 22)
  {
    CompleteSizes(g);
    ItemsPositive(g);
    forall i | 0 <= i <= |g.parent|
      ensures Depth(g.parent, i) < 22
    {
      DepthBelow22(g, i);
    }
  }
}
