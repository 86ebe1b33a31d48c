/** The in-place minimum-redundancy coder: an array of sorted symbol frequencies becomes an array of
    code lengths. The one array successively holds weights, parent indices, depths and code lengths. */
module MinimumRedundancy {
  import opened Powers
  import opened PrefixCode
  import opened HuffmanForest
  import opened HuffmanDepths
  import opened SymbolFrequency

  ghost function Sum(s: seq<nat>): nat {
    if s == [] then 0 else s[0] + Sum(s[1..])
  }

  /** The weight that is still waiting in the two queues. */
  ghost function Waiting(g: Log): nat
    requires Recorded(g) && |g.parent| <= |g.sums|
  {
    Sum(g.sums[|g.parent|..]) + Sum(g.weights[|g.leafParent|..])
  }

  /** How the array stores the log: parents, then waiting internal weights, then waiting leaves. */
  ghost predicate Stored(s: seq<SymFreq>, g: Log) {
    && |g.parent| <= |g.sums| <= |g.weights| <= |s|
    && (forall i | 0 <= i < |g.parent| :: s[i].key == g.parent[i])
    && (forall i | |g.parent| <= i < |g.sums| :: s[i].key == g.sums[i])
    && (forall i | |g.leafParent| <= i < |g.weights| :: s[i].key == g.weights[i])
  }

  /** `s` and `t` differ only in keys, and only among the first `n` entries. */
  ghost predicate OnlyKeys(s: seq<SymFreq>, t: seq<SymFreq>, n: nat) {
    && |s| == |t|
    && (forall i | 0 <= i < |s| :: t[i].sym == s[i].sym)
    && (forall i | n <= i < |s| :: t[i] == s[i])
  }

  lemma {:induction false} SumAppend(s: seq<nat>, x: nat)
    ensures Sum(s + [x]) == Sum(s) + x
  {
    if s == [] {
      assert s + [x] == [x];
    } else {
      SumAppend(s[1..], x);
      assert (s + [x])[1..] == s[1..] + [x];
    }
  }

  lemma {:induction false} TakeInternalWaiting(g: Log)
    requires Recorded(g) && g.Picks() <= 2 * |g.sums| + 1 && |g.parent| < |g.sums|
    requires Recorded(TakeInternal(g))
    ensures Waiting(g) == Waiting(TakeInternal(g)) + g.sums[|g.parent|]
  {
    assert g.sums[|g.parent|..][1..] == g.sums[|g.parent| + 1..];
  }

  lemma {:induction false} TakeLeafWaiting(g: Log)
    requires Recorded(g) && |g.parent| <= |g.sums| && |g.leafParent| < |g.weights|
    requires Recorded(TakeLeaf(g))
    ensures Waiting(g) == Waiting(TakeLeaf(g)) + g.weights[|g.leafParent|]
  {
    assert g.weights[|g.leafParent|..][1..] == g.weights[|g.leafParent| + 1..];
  }

  lemma {:induction false} MakeNodeWaiting(g: Log)
    requires Recorded(g) && g.Picks() == 2 * |g.sums| + 2 && |g.parent| <= |g.sums|
    requires Recorded(MakeNode(g))
    ensures Waiting(MakeNode(g)) == Waiting(g) + Item(g, g.Picks() - 2) + Item(g, g.Picks() - 1)
  {
    var h := MakeNode(g);
    assert h.sums[|g.parent|..] == g.sums[|g.parent|..] + [h.sums[|g.sums|]];
    SumAppend(g.sums[|g.parent|..], h.sums[|g.sums|]);
  }

  /** One pick: removes the lighter of the two queue heads. An internal node's slot, no longer
      needed for its weight, receives the index of its parent. */
  method TakeSmaller(a: array<SymFreq>, n: nat, next: nat, root: nat, leaf: nat, ghost g: Log)
    returns (v: Word16, root': nat, leaf': nat, ghost g': Log)
    requires n <= a.Length && n <= 0x10000
    requires |g.weights| == n && Recorded(g) && Greedy(g) && Stored(a[..], g)
    requires |g.sums| == next && |g.parent| == root && |g.leafParent| == leaf && root <= next < n
    requires leaf + root == g.Picks() && leaf <= n && next <= leaf && (root < next ==> next < leaf)
    requires 2 * next <= g.Picks() <= 2 * next + 1 && g.Picks() < 2 * n - 2 && next < n - 1
    modifies a
    ensures Recorded(g') && Greedy(g') && g'.Picks() == g.Picks() + 1
    ensures Stored(a[..], g')
    ensures g'.weights == g.weights && g'.sums == g.sums && g.taken <= g'.taken
    ensures |g'.parent| == root' && |g'.leafParent| == leaf' && root' <= next
    ensures leaf' + root' == g'.Picks() && leaf' <= n
    ensures v == Item(g', g.Picks())
    ensures Waiting(g) == Waiting(g') + v
    ensures OnlyKeys(old(a[..]), a[..], n)
  {
    hide Sorted, Summed, StepOk, Ascending, HeadsOk;
    if leaf >= n || (root < next && a[root].key < a[leaf].key) {
      v := a[root].key;
      a[root] := a[root].(key := next);
      root', leaf' := root + 1, leaf;
      g' := TakeInternal(g);
      TakeInternalGreedy(g);
      TakeInternalWaiting(g);
    } else {
      v := a[leaf].key;
      root', leaf' := root, leaf + 1;
      g' := TakeLeaf(g);
      TakeLeafGreedy(g);
      TakeLeafWaiting(g);
    }
  }

  /** The loop state between two internal nodes: the next free slot, and the two queue heads. */
  ghost predicate Between(s: seq<SymFreq>, g: Log, n: nat, next: nat, root: nat, leaf: nat) {
    && Recorded(g) && Greedy(g) && Stored(s, g)
    && |g.weights| == n
    && g.Picks() == 2 * next && |g.sums| == next && |g.parent| == root && |g.leafParent| == leaf
    && leaf + root == 2 * next && leaf <= n
    && (0 < next ==> root < next)
  }

  lemma {:induction false} StoreScratch(s: seq<SymFreq>, g: Log, n: nat, next: nat, key: Word16)
    requires Stored(s, g) && |g.sums| <= next < n <= |s| && next < |g.leafParent|
    ensures Stored(s[next := s[next].(key := key)], g)
    ensures OnlyKeys(s, s[next := s[next].(key := key)], n)
  {
  }

  lemma {:induction false} StoreNode(s: seq<SymFreq>, g: Log)
    requires Recorded(g) && g.Picks() == 2 * |g.sums| + 2
    requires Stored(s, g) && |g.sums| < |g.weights| && |g.parent| <= |g.sums|
    requires s[|g.sums|].key == Item(g, g.Picks() - 2) + Item(g, g.Picks() - 1)
    ensures Stored(s, MakeNode(g))
  {
    hide Recorded;
  }

  /** Two picks and the sum of what they removed make internal node `next`. */
  method MakeInternalNode(a: array<SymFreq>, n: nat, next: nat, root: nat, leaf: nat, ghost g: Log)
    returns (root': nat, leaf': nat, ghost g': Log)
    requires 2 <= n <= a.Length && n <= 0x10000 && 0 < next < n - 1
    requires Between(a[..], g, n, next, root, leaf) && Waiting(g) < 0x10000
    modifies a
    ensures Between(a[..], g', n, next + 1, root', leaf')
    ensures g'.weights == g.weights && Waiting(g') == Waiting(g)
    ensures OnlyKeys(old(a[..]), a[..], n)
  {
    hide Recorded, Greedy, OnlyKeys, Stored;
    ghost var s := a[..];
    var first, r, l, g1 := TakeSmaller(a, n, next, root, leaf, g);
    ghost var s1 := a[..];
    a[next] := a[next].(key := first);
    ghost var s2 := s1[next := s1[next].(key := first)];
    assert a[..] == s2;
    StoreScratch(s1, g1, n, next, first);
    var second, r', l', g2 := TakeSmaller(a, n, next, r, l, g1);
    ghost var s3 := a[..];
    a[next] := a[next].(key := first + second);
    ghost var s4 := s3[next := s3[next].(key := first + second)];
    assert a[..] == s4;
    StoreScratch(s3, g2, n, next, first + second);
    root', leaf' := r', l';
    OlderItems(g1, g2);
    MakeNodeGreedy(g2);
    MakeNodeWaiting(g2);
    StoreNode(s4, g2);
    g' := MakeNode(g2);
    OnlyKeysChain(s, s1, s2, s3, s4, n);
  }

  lemma {:induction false} OnlyKeysChain(s: seq<SymFreq>, s1: seq<SymFreq>, s2: seq<SymFreq>, s3: seq<SymFreq>,
                                         s4: seq<SymFreq>, n: nat)
    requires OnlyKeys(s, s1, n) && OnlyKeys(s1, s2, n) && OnlyKeys(s2, s3, n) && OnlyKeys(s3, s4, n)
    ensures OnlyKeys(s, s4, n)
  {
  }

  ghost function Frequencies(s: seq<SymFreq>): (ws: seq<nat>)
    ensures |ws| == |s| && forall i | 0 <= i < |s| :: ws[i] == s[i].key
  {
    seq(|s|, i requires 0 <= i < |s| => s[i].key)
  }

  lemma {:induction false} StartGreedy(ws: seq<nat>)
    requires Ascending(ws)
    ensures Recorded(Start(ws)) && Greedy(Start(ws)) && Waiting(Start(ws)) == Sum(ws)
  {
    assert ws[0..] == ws;
  }

  /** The first merge is always of the first two leaves. */
  lemma {:induction false} FirstMerge(ws: seq<nat>) returns (g: Log)
    requires Ascending(ws) && |ws| >= 2
    ensures Recorded(g) && Greedy(g) && g.weights == ws
    ensures g.Picks() == 2 && g.sums == [ws[0] + ws[1]] && g.parent == [] && |g.leafParent| == 2
    ensures Waiting(g) == Sum(ws)
  {
    hide Greedy, Recorded, Waiting;
    var g0 := Start(ws);
    StartGreedy(ws);
    var g1 := TakeLeaf(g0);
    TakeLeafGreedy(g0);
    TakeLeafWaiting(g0);
    var g2 := TakeLeaf(g1);
    TakeLeafGreedy(g1);
    TakeLeafWaiting(g1);
    OlderItems(g1, g2);
    g := MakeNode(g2);
    MakeNodeGreedy(g2);
    MakeNodeWaiting(g2);
  }

  /** First phase: after it, entry `i` holds the parent of internal node `i`. */
  method BuildForest(a: array<SymFreq>, n: nat) returns (ghost g: Log)
    requires 2 <= n <= a.Length && n <= 0x10000
    requires Ascending(Frequencies(a[..n])) && Sum(Frequencies(a[..n])) < 0x10000
    modifies a
    ensures Complete(g) && g.weights == old(Frequencies(a[..n]))
    ensures |g.parent| == n - 2 && forall i | 0 <= i < n - 2 :: a[i].key == g.parent[i]
    ensures g.sums[n - 2] == Sum(g.weights) < 0x10000
    ensures OnlyKeys(old(a[..]), a[..], n)
  {
    hide Greedy, Recorded, OnlyKeys;
    ghost var s0 := a[..];
    g := FirstMerge(Frequencies(a[..n]));
    FirstTwoFit(Frequencies(a[..n]));
    a[0] := a[0].(key := a[0].key + a[1].key);
    StartStored(s0, a[..], g, n);
    var root, leaf, next := 0, 2, 1;
    while next < n - 1
      invariant 1 <= next <= n - 1
      invariant Between(a[..], g, n, next, root, leaf)
      invariant Waiting(g) == Sum(g.weights) < 0x10000 && g.weights == old(Frequencies(a[..n]))
      invariant OnlyKeys(s0, a[..], n)
    {
      ghost var s1 := a[..];
      root, leaf, g := MakeInternalNode(a, n, next, root, leaf, g);
      OnlyKeysChain(s0, s1, a[..], a[..], a[..], n);
      next := next + 1;
    }
    LastNodeWeighsAll(g);
  }

  lemma {:induction false} FirstTwoFit(ws: seq<nat>)
    requires |ws| >= 2 && Sum(ws) < 0x10000
    ensures ws[0] + ws[1] < 0x10000
  {
    assert Sum(ws) == ws[0] + (ws[1] + Sum(ws[1..][1..]));
  }

  lemma {:induction false} StartStored(s: seq<SymFreq>, t: seq<SymFreq>, g: Log, n: nat)
    requires 2 <= n <= |s| == |t| && g.weights == Frequencies(s[..n])
    requires s[0].key + s[1].key < 0x10000 && t == s[0 := s[0].(key := s[0].key + s[1].key)]
    requires g.sums == [g.weights[0] + g.weights[1]] && g.parent == [] && |g.leafParent| == 2
    ensures Stored(t, g) && OnlyKeys(s, t, n)
  {
  }

  lemma {:induction false} LastNodeWeighsAll(g: Log)
    requires Complete(g) && |g.parent| <= |g.sums|
    ensures g.sums[|g.sums| - 1] == Waiting(g) && |g.parent| == |g.weights| - 2
  {
    CompleteSizes(g);
    assert g.sums[|g.parent|..] == [g.sums[|g.sums| - 1]];
    assert g.weights[|g.leafParent|..] == [];
    assert Sum([g.sums[|g.sums| - 1]]) == g.sums[|g.sums| - 1] + Sum([]);
  }

  /** The second phase: up to `next` the parents, after it the depths, which are at most the distance to the root. */
  ghost predicate Deepened(s: seq<SymFreq>, parent: seq<nat>, n: nat, next: int) {
    && Rooted(parent) && |parent| == n - 2 && n <= |s| && next < n - 1 <= 0xFFFF
    && (forall i | 0 <= i <= next :: i < n - 2 && s[i].key == parent[i])
    && (forall i | next < i < n - 1 && 0 <= i :: s[i].key == Depth(parent, i) <= n - 2 - i)
  }

  lemma {:induction false} StartDepths(s: seq<SymFreq>, parent: seq<nat>, n: nat)
    requires Rooted(parent) && |parent| == n - 2 && n <= |s| && n <= 0x10000
    requires forall i | 0 <= i < n - 2 :: s[i].key == parent[i]
    ensures var s' := s[n - 2 := s[n - 2].(key := 0)]; Deepened(s', parent, n, n - 3) && OnlyKeys(s, s', n)
  {
  }

  /** The node after `next` whose depth is known gives the depth of `next`. */
  lemma {:induction false} DeepenOne(s0: seq<SymFreq>, s: seq<SymFreq>, parent: seq<nat>, n: nat, next: nat)
    requires Deepened(s, parent, n, next) && OnlyKeys(s0, s, n)
    ensures next < n - 2 && s[next].key < |s| && s[s[next].key].key < 0xFFFF
    ensures var s' := s[next := s[next].(key := s[s[next].key].key + 1)]; Deepened(s', parent, n, next - 1) && OnlyKeys(s0, s', n)
  {
  }

  lemma {:induction false} AllDeepened(s: seq<SymFreq>, parent: seq<nat>, n: nat)
    requires Deepened(s, parent, n, -1)
    ensures forall i | 0 <= i < n - 1 :: s[i].key == Depth(parent, i)
  {
  }

  /** Second phase: parents become depths, from the root backwards. */
  method ParentsToDepths(a: array<SymFreq>, n: nat, ghost g: Log)
    requires 2 <= n <= a.Length && n <= 0x10000 && Complete(g) && |g.weights| == n
    requires Rooted(g.parent) && |g.parent| == n - 2 && forall i | 0 <= i < n - 2 :: a[i].key == g.parent[i]
    modifies a
    ensures forall i | 0 <= i < n - 1 :: a[i].key == Depth(g.parent, i)
    ensures OnlyKeys(old(a[..]), a[..], n)
  {
    hide Complete, Depth, OnlyKeys, Deepened;
    ghost var s0 := a[..];
    a[n - 2] := a[n - 2].(key := 0);
    assert a[..] == s0[n - 2 := s0[n - 2].(key := 0)];
    StartDepths(s0, g.parent, n);
    var next := n - 3;
    while next >= 0
      invariant -1 <= next <= n - 3 && Deepened(a[..], g.parent, n, next) && OnlyKeys(s0, a[..], n)
    {
      ghost var s := a[..];
      DeepenOne(s0, s, g.parent, n, next);
      a[next] := a[next].(key := a[a[next].key].key + 1);
      assert a[..] == s[next := s[next].(key := s[s[next].key].key + 1)];
      next := next - 1;
    }
    AllDeepened(a[..], g.parent, n);
  }

  /** The third phase between two levels: internal depths are left in front, code lengths filled in at the back. */
  ghost predicate Halfway(s: seq<SymFreq>, g: Log, r: nat, l: nat, d: nat)
    requires Complete(g) && Rooted(g.parent)
  {
    && Level(g, r, l, d) && |g.sums| == |g.parent| + 1 && r <= |g.sums| && l <= |g.weights| <= |s|
    && (forall i | 0 <= i < r :: s[i].key == Depth(g.parent, i))
    && (forall j | l <= j < |g.weights| :: s[j].key == LeafDepths(g)[j])
  }

  /** Where the next level starts among the internal nodes and the leaves. */
  ghost predicate Bounds(s: seq<SymFreq>, g: Log, r: nat, l: nat, r0: nat, l0: nat, d: nat)
    requires Complete(g) && Rooted(g.parent)
  {
    && r <= r0 <= |s| && l <= l0 <= |g.weights| && Level(g, r, l, d + 1) && |g.sums| == |g.parent| + 1 && r <= |g.sums|
    && (forall i | r <= i < r0 :: s[i].key == d) && (r > 0 ==> s[r - 1].key != d)
    && (forall j | l <= j < l0 :: LeafDepths(g)[j] == d)
    && l == 2 * r0 - r && (r0 > 0 ==> r < r0)
  }

  lemma {:induction false} NextBounds(s: seq<SymFreq>, g: Log, r0: nat, l0: nat, d: nat) returns (r: nat, l: nat)
    requires Complete(g) && Rooted(g.parent) && Halfway(s, g, r0, l0, d) && |g.parent| < |s|
    ensures Bounds(s, g, r, l, r0, l0, d)
  {
    hide Complete, Rooted;
    NextLevel(g, r0, l0, d);
    r, l := g.taken[2 * r0], 2 * r0 - g.taken[2 * r0];
  }

  /** The third phase inside a level: leaves after `next` have their lengths. */
  ghost predicate Filling(s0: seq<SymFreq>, s: seq<SymFreq>, g: Log, r: nat, next: int, n: nat)
    requires Complete(g) && Rooted(g.parent)
  {
    && n <= |s| && |g.weights| == n && r <= |g.sums| == |g.parent| + 1 && r <= |s| && next < n && OnlyKeys(s0, s, n)
    && (forall i | 0 <= i < r :: s[i].key == Depth(g.parent, i))
    && (forall j | next < j < n && 0 <= j :: s[j].key == LeafDepths(g)[j])
  }

  lemma {:induction false} StartFilling(s: seq<SymFreq>, g: Log, r: nat, l: nat, r0: nat, l0: nat, d: nat, n: nat)
    requires Complete(g) && Rooted(g.parent) && Halfway(s, g, r0, l0, d) && Bounds(s, g, r, l, r0, l0, d) && |g.weights| == n
    ensures Filling(s, s, g, r, l0 - 1, n)
  {
    hide Complete, Rooted, LeafDepths, Level;
  }

  /** The next leaf of the level receives its depth. */
  lemma {:induction false} FillOne(s0: seq<SymFreq>, s: seq<SymFreq>, g: Log, r: nat, l: nat, r0: nat, l0: nat, d: nat, next: nat, n: nat)
    requires Complete(g) && Rooted(g.parent) && Shallow(g, 22) && Bounds(s0, g, r, l, r0, l0, d)
    requires Filling(s0, s, g, r, next, n) && l <= next < l0
    ensures d <= 22 && next < |s| && Filling(s0, s[next := s[next].(key := d)], g, r, next - 1, n)
  {
    assert LeafDepths(g)[next] == d;
    hide Complete, Rooted, LeafDepths, Level;
  }

  lemma {:induction false} LevelFilled(s0: seq<SymFreq>, s: seq<SymFreq>, g: Log, r: nat, l: nat, r0: nat, l0: nat, d: nat, n: nat)
    requires Complete(g) && Rooted(g.parent) && Bounds(s0, g, r, l, r0, l0, d) && Filling(s0, s, g, r, l - 1, n)
    ensures Halfway(s, g, r, l, d + 1) && OnlyKeys(s0, s, n)
  {
    hide Complete, Rooted, LeafDepths, Level;
  }

  /** One level of the third phase: counts the internal nodes of depth `dpth`; every other node available
      at this level is a leaf and receives `dpth` as its code length. */
  method FillLevel(a: array<SymFreq>, n: nat, avail: nat, dpth: nat, top: int, last: int, ghost g: Log)
    returns (used: nat, root: int, next: int)
    requires 2 <= n <= a.Length && Complete(g) && |g.weights| == n && Shallow(g, 22)
    requires Rooted(g.parent) && |g.parent| == n - 2
    requires top >= -1 && last >= -1 && avail == last - top > 0
    requires Halfway(a[..], g, top + 1, last + 1, dpth)
    modifies a
    ensures root >= -1 && next >= -1 && next - root == 2 * used && (used == 0 ==> root == -1)
    ensures root + next < top + last
    ensures Halfway(a[..], g, root + 1, next + 1, dpth + 1)
    ensures OnlyKeys(old(a[..]), a[..], n)
  {
    hide Complete, Rooted, LeafDepths, Shallow, OnlyKeys, Filling, Level, Halfway;
    ghost var s0 := a[..];
    ghost var r, l := NextBounds(s0, g, top + 1, last + 1, dpth);
    StartFilling(s0, g, r, l, top + 1, last + 1, dpth, n);
    used, root, next := 0, top, last;
    while root >= 0 && a[root].key == dpth
      invariant r - 1 <= root <= top && used == top - root
    {
      used := used + 1;
      root := root - 1;
    }
    assert root == r - 1;
    var avbl := avail;
    while avbl > used
      invariant used <= avbl && l - 1 <= next <= last && avbl - used == next + 1 - l
      invariant Filling(s0, a[..], g, r, next, n)
    {
      ghost var s := a[..];
      FillOne(s0, s, g, r, l, top + 1, last + 1, dpth, next, n);
      a[next] := a[next].(key := dpth);
      assert a[..] == s[next := s[next].(key := dpth)];
      next := next - 1;
      avbl := avbl - 1;
    }
    LevelFilled(s0, a[..], g, r, l, top + 1, last + 1, dpth, n);
  }

  /** Third phase: internal depths become leaf depths, one level at a time. */
  method DepthsToLengths(a: array<SymFreq>, n: nat, ghost g: Log)
    requires 2 <= n <= a.Length && n <= 0x10000 && Complete(g) && |g.weights| == n
    requires Rooted(g.parent) && |g.parent| == n - 2
    requires forall i | 0 <= i < n - 1 :: a[i].key == Depth(g.parent, i)
    requires Shallow(g, 22)
    modifies a
    ensures forall j | 0 <= j < n :: a[j].key == LeafDepths(g)[j]
    ensures OnlyKeys(old(a[..]), a[..], n)
  {
    assert OnlyKeys(a[..], a[..], n) && |g.sums| == n - 1;
    hide Complete, Rooted, Shallow, OnlyKeys;
    var avbl, dpth, root, next := 1, 0, n - 2, n - 1;
    TopLevel(g);
    while avbl > 0
      invariant root >= -1 && next >= -1 && avbl == next - root && dpth >= 0
      invariant Halfway(a[..], g, root + 1, next + 1, dpth)
      invariant avbl <= 0 ==> root == -1
      invariant OnlyKeys(old(a[..]), a[..], n)
      decreases root + next + 2
    {
      ghost var s := a[..];
      var used;
      used, root, next := FillLevel(a, n, avbl, dpth, root, next, g);
      OnlyKeysChain(old(a[..]), s, a[..], a[..], a[..], n);
      avbl := 2 * used;
      dpth := dpth + 1;
    }
  }

  /** A sequence of code lengths for `ws` whose weighted total no prefix code undercuts. */
  ghost predicate MinimumRedundant(ws: seq<nat>, ls: seq<nat>) {
    && |ls| == |ws|
    && forall ks: seq<nat>, scale: nat | |ks| == |ws| && IsPrefixCode(ks, scale) ::
         WeightedTotal(ws, ls) <= WeightedTotal(ws, ks)
  }

  /** Non-increasing lengths of at most 22 bits whose Kraft sum is exactly one and whose weighted total is least. */
  ghost predicate MinimumRedundancyCode(ws: seq<nat>, ls: seq<nat>) {
    && |ls| == |ws|
    && (forall i, j | 0 <= i <= j < |ls| :: 22 >= ls[i] >= ls[j] >= 1)
    && AtMost(ls, 32) && KraftSum(ls, 32) == Pow2(32)
    && MinimumRedundant(ws, ls)
  }

  /** A long code belongs to a rare symbol: by a Fibonacci number of the length rarer than all together. */
  ghost predicate LongIsRare(ws: seq<nat>, ls: seq<nat>) {
    |ls| == |ws| && forall i | 0 <= i < |ls| :: Fib(ls[i] + 1) * ws[i] <= Sum(ws)
  }

  lemma {:induction false} LeafDepthsRare(g: Log)
    requires Complete(g) && g.sums[|g.sums| - 1] == Sum(g.weights)
    ensures LongIsRare(g.weights, LeafDepths(g))
  {
    hide Complete, Fib, LeafDepths, Sum;
    forall j | 0 <= j < |g.weights|
      ensures Fib(LeafDepths(g)[j] + 1) * g.weights[j] <= Sum(g.weights)
    {
      DeepLeafIsLight(g, j);
    }
  }

  /** A code as cheap as greedy merging has minimum redundancy. */
  lemma {:induction false} GreedyCostIsMinimum(ws: seq<nat>, ls: seq<nat>)
    requires |ls| == |ws| && WeightedTotal(ws, ls) == GreedyCost(multiset(ws))
    ensures MinimumRedundant(ws, ls)
  {
    hide IsPrefixCode, WeightedTotal, GreedyCost;
    forall ks: seq<nat>, scale: nat | |ks| == |ws| && IsPrefixCode(ks, scale)
      ensures WeightedTotal(ws, ls) <= WeightedTotal(ws, ks)
    {
      GreedyIsLowerBound(ws, ks, scale);
    }
  }

  lemma {:induction false} LeafDepthsInOrder(g: Log)
    requires Complete(g) && Shallow(g, 22)
    ensures Shallow(g, 32)
    ensures forall i, j | 0 <= i <= j < |g.weights| :: 22 >= LeafDepths(g)[i] >= LeafDepths(g)[j] >= 1
  {
    CompleteSizes(g);
    forall i, j | 0 <= i <= j < |g.weights|
      ensures LeafDepths(g)[i] >= LeafDepths(g)[j]
    {
      LeafDepthsDescend(g, i, j);
    }
  }

  lemma {:induction false} LeafDepthsSummary(g: Log)
    requires Complete(g) && Shallow(g, 22)
    ensures MinimumRedundancyCode(g.weights, LeafDepths(g))
  {
    hide Complete, Shallow, MinimumRedundant;
    LeafDepthsInOrder(g);
    LeafDepthsOptimal(g, 32);
    GreedyCostIsMinimum(g.weights, LeafDepths(g));
  }

  /** Replaces sorted positive frequencies by code lengths: non-increasing, at most 22 bits, an exactly
      complete prefix code, and of least weighted total among all prefix codes. */
  method CalculateMinimumRedundancy(a: array<SymFreq>, n: nat)
    requires n <= a.Length && n <= 0x10000
    requires Ascending(Frequencies(a[..n])) && Sum(Frequencies(a[..n])) < 0x10000
    requires forall i | 0 <= i < n :: a[i].key >= 1
    modifies a
    ensures n == 0 ==> a[..] == old(a[..])
    ensures n == 1 ==> a[0].key == 1
    ensures n >= 2 ==>
      MinimumRedundancyCode(old(Frequencies(a[..n])), Frequencies(a[..n]))
    ensures n >= 2 ==> LongIsRare(old(Frequencies(a[..n])), Frequencies(a[..n]))
    ensures OnlyKeys(old(a[..]), a[..], n)
  {
    hide MinimumRedundancyCode, LongIsRare, Shallow, Depth, LeafDepths, Recorded, Greedy;
    if n == 0 {
      return;
    } else if n == 1 {
      a[0] := a[0].(key := 1);
      return;
    }
    ghost var s0 := a[..];
    ghost var g := BuildForest(a, n);
    ghost var s1 := a[..];
    CompleteSizes(g);
    ParentsToDepths(a, n, g);
    ghost var s2 := a[..];
    ShallowBelow16Bits(g);
    DepthsToLengths(a, n, g);
    OnlyKeysChain(s0, s1, s2, a[..], a[..], n);
    LeafDepthsSummary(g);
    LeafDepthsRare(g);
    assert Frequencies(a[..n]) == LeafDepths(g);
  }
}
