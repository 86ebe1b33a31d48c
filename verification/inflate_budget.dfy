/** The decoder's tree never needs more nodes than it has room for. */
module InflateBudget {
  import opened Powers
  import opened Bits
  import opened CanonicalCode
  import opened InflateTable

  /** How many symbols have a code of length 1 to `hi`. */
  ghost function Used(sizes: seq<nat>, hi: nat): nat {
    if hi == 0 then 0 else Used(sizes, hi - 1) + Count(sizes, hi)
  }

  /** The decoder's acceptance test: a complete code, or at most one symbol. */
  ghost predicate Accepted(sizes: seq<nat>) {
    Lengths(sizes) && (FirstCode(sizes, 16) == Pow2(16) || Used(sizes, 15) <= 1)
  }

  lemma {:induction false} UsedAppend(sizes: seq<nat>, l: nat, hi: nat)
    ensures Used(sizes + [l], hi) == Used(sizes, hi) + (if 1 <= l <= hi then 1 else 0)
  {
    if hi > 0 {
      UsedAppend(sizes, l, hi - 1);
      CountAppend(sizes, l, hi);
    }
  }

  lemma {:induction false} UsedAtMost(sizes: seq<nat>, hi: nat)
    ensures Used(sizes, hi) <= |sizes|
    decreases |sizes|
  {
    if sizes == [] {
      UsedNone(sizes, hi);
    } else {
      var init := sizes[..|sizes| - 1];
      UsedAtMost(init, hi);
      UsedAppend(init, sizes[|sizes| - 1], hi);
      assert init + [sizes[|sizes| - 1]] == sizes;
    }
  }

  lemma {:induction false} UsedNone(sizes: seq<nat>, hi: nat)
    requires sizes == []
    ensures Used(sizes, hi) == 0
  {
    if hi > 0 {
      UsedNone(sizes, hi - 1);
    }
  }

  /** The number of used symbols counts each of them. */
  lemma {:induction false} UsedSymbols(sizes: seq<nat>, s: nat, t: nat)
    requires Lengths(sizes) && s <= t < |sizes| && sizes[s] > 0 && sizes[t] > 0
    ensures Used(sizes, 15) >= if s == t then 1 else 2
    decreases |sizes|
  {
    var n := |sizes| - 1;
    var init := sizes[..n];
    assert init + [sizes[n]] == sizes;
    UsedAppend(init, sizes[n], 15);
    if t < n {
      UsedSymbols(init, s, t);
    } else if s < n {
      UsedSymbols(init, s, s);
    }
  }

  lemma {:induction false} FewCodesFit(sizes: seq<nat>, len: nat)
    requires Used(sizes, 15) <= 1 && 1 <= len <= 16
    ensures Used(sizes, len - 1) <= Used(sizes, 15)
    ensures FirstCode(sizes, len) <= Used(sizes, len - 1) * Pow2(len - 1)
  {
    UsedMonotone(sizes, len - 1, 15);
    if len > 1 {
      FewCodesFit(sizes, len - 1);
      Pow2Double(len - 2);
      var u, c, p := Used(sizes, len - 2), Count(sizes, len - 1), Pow2(len - 2);
      assert c * p >= c by {
        CountTimes(c, p);
      }
      assert (u + c) * (2 * p) == 2 * (u * p + c * p);
    } else {
      assert FirstCode(sizes, 1) == 0;
    }
  }

  lemma {:induction false} CountTimes(c: nat, p: nat)
    requires p > 0
    ensures c * p >= c
  {
    assert c * p == c * (p - 1) + c;
  }

  lemma {:induction false} UsedMonotone(sizes: seq<nat>, a: nat, b: nat)
    requires a <= b
    ensures Used(sizes, a) <= Used(sizes, b)
  {
    if a < b {
      UsedMonotone(sizes, a, b - 1);
    }
  }

  lemma {:induction false} AcceptedFits(sizes: seq<nat>)
    requires Accepted(sizes)
    ensures NotOversubscribed(sizes)
  {
    if FirstCode(sizes, 16) != Pow2(16) {
      FewCodesFit(sizes, 16);
      Pow2Double(15);
      var u, p := Used(sizes, 15), Pow2(15);
      assert u * p <= p by {
        assert u == 0 || u == 1;
      }
    }
  }

  // ---------------------------------------------------------------- counting the inner prefixes

  /** The prefixes of length `k` whose canonical values lie in `[a, b)`. */
  ghost function PrefixSet(k: nat, a: nat, b: nat): (ps: set<Node>)
    ensures |ps| <= if a < b then b - a else 0
    ensures forall c: nat | a <= c < b :: Node(k, Rev(c, k)) in ps
    decreases b
  {
    if a >= b then {} else PrefixSet(k, a, b - 1) + {Node(k, Rev(b - 1, k))}
  }

  /** The first value of length `k` that is not a code but a prefix of longer ones. */
  ghost function FirstInner(sizes: seq<nat>, k: nat): nat {
    FirstCode(sizes, k) + Count(sizes, k)
  }

  lemma {:induction false} InnerValue(sizes: seq<nat>, s: nat, k: nat)
    requires NotOversubscribed(sizes) && s < |sizes| && 1 <= k < sizes[s]
    ensures Node(k, Path(sizes, s, k)) in PrefixSet(k, FirstInner(sizes, k), Pow2(k))
  {
    var len := sizes[s];
    var c := CodeOf(sizes, s) / Pow2(len - k);
    RevPrefix(CodeOf(sizes, s), k, len);
    CodeOfFits(sizes, s);
    UpperPartFits(CodeOf(sizes, s), k, len);
    FirstCodeGrows(sizes, k, len);
    assert FirstInner(sizes, k) * Pow2(len - k) <= CodeOf(sizes, s);
    hide *;
    QuotientAtLeast(CodeOf(sizes, s), Pow2(len - k), FirstInner(sizes, k));
    PathIsRev(sizes, s, k, c);
  }

  lemma {:induction false} PathIsRev(sizes: seq<nat>, s: nat, k: nat, c: nat)
    requires s < |sizes| && k <= sizes[s] && c == CodeOf(sizes, s) / Pow2(sizes[s] - k)
    ensures Path(sizes, s, k) == Rev(c, k)
  {
    hide *;
    PathUnfold(sizes, s, k);
    RevPrefix(CodeOf(sizes, s), k, sizes[s]);
  }

  lemma {:induction false} PathUnfold(sizes: seq<nat>, s: nat, k: nat)
    requires s < |sizes|
    ensures Path(sizes, s, k) == Rev(CodeOf(sizes, s), sizes[s]) % Pow2(k)
  {
    hide Rev, CodeOf, Pow2;
  }

  lemma {:induction false} QuotientAtLeast(d: nat, p: nat, a: nat)
    requires p > 0 && a * p <= d
    ensures d / p >= a
  {
    var q, r := Euclid(d, p);
    if q < a {
      assert (a - q) * p == a * p - q * p;
      AtLeastOnce(a - q, p);
    }
  }

  lemma {:induction false} InnerHalves(sizes: seq<nat>, k: nat)
    requires k >= 1
    ensures 2 * (Pow2(k) - FirstInner(sizes, k)) == Pow2(k + 1) - FirstInner(sizes, k + 1) + Count(sizes, k + 1)
  {
  }

  /** A complete code has fewer inner prefixes of ten and more bits than symbols. */
  lemma {:induction false} InnerTotal(sizes: seq<nat>)
    requires CompleteCode(sizes)
    ensures forall k | 10 <= k <= 14 :: Pow2(k) >= FirstInner(sizes, k)
    ensures Pow2(10) - FirstInner(sizes, 10) + (Pow2(11) - FirstInner(sizes, 11)) + (Pow2(12) - FirstInner(sizes, 12))
          + (Pow2(13) - FirstInner(sizes, 13)) + (Pow2(14) - FirstInner(sizes, 14)) <= |sizes|
  {
    forall k | 10 <= k <= 14
      ensures Pow2(k) >= FirstInner(sizes, k)
    {
      CodeFits(sizes, k);
    }
    InnerHalves(sizes, 10);
    InnerHalves(sizes, 11);
    InnerHalves(sizes, 12);
    InnerHalves(sizes, 13);
    InnerHalves(sizes, 14);
    assert FirstCode(sizes, 16) == 2 * FirstInner(sizes, 15);
    Pow2Double(15);
    UsedAtMost(sizes, 15);
    TopCounts(sizes);
  }

  lemma {:induction false} TopCounts(sizes: seq<nat>)
    ensures Count(sizes, 11) + Count(sizes, 12) + Count(sizes, 13) + Count(sizes, 14) + Count(sizes, 15) <= Used(sizes, 15)
  {
    assert Used(sizes, 15) == Used(sizes, 14) + Count(sizes, 15);
    assert Used(sizes, 14) == Used(sizes, 13) + Count(sizes, 14);
    assert Used(sizes, 13) == Used(sizes, 12) + Count(sizes, 13);
    assert Used(sizes, 12) == Used(sizes, 11) + Count(sizes, 12);
    assert Used(sizes, 11) == Used(sizes, 10) + Count(sizes, 11);
  }

  ghost predicate Elements(order: seq<Node>, budget: set<Node>) {
    forall n | n in order :: n in budget
  }

  lemma {:induction false} DistinctFit(order: seq<Node>, budget: set<Node>)
    requires NoDuplicates(order) && Elements(order, budget)
    ensures |order| <= |budget|
  {
    if order != [] {
      var last := order[|order| - 1];
      var init := order[..|order| - 1];
      assert last in order;
      forall n | n in init
        ensures n in budget - {last}
      {
        assert n in order;
      }
      DistinctFit(init, budget - {last});
    }
  }

  ghost function CompleteBudget(sizes: seq<nat>): set<Node> {
    PrefixSet(10, FirstInner(sizes, 10), Pow2(10)) + PrefixSet(11, FirstInner(sizes, 11), Pow2(11))
    + PrefixSet(12, FirstInner(sizes, 12), Pow2(12)) + PrefixSet(13, FirstInner(sizes, 13), Pow2(13))
    + PrefixSet(14, FirstInner(sizes, 14), Pow2(14))
  }

  lemma {:induction false} CompleteBudgetSize(sizes: seq<nat>)
    requires CompleteCode(sizes)
    ensures |CompleteBudget(sizes)| <= |sizes|
  {
    hide FirstInner, Pow2, CompleteCode;
    InnerTotal(sizes);
  }

  ghost function SingleBudget(sizes: seq<nat>, s: nat): set<Node>
    requires s < |sizes|
  {
    {Node(10, Path(sizes, s, 10)), Node(11, Path(sizes, s, 11)), Node(12, Path(sizes, s, 12)),
     Node(13, Path(sizes, s, 13)), Node(14, Path(sizes, s, 14))}
  }

  /** However far the build has come, the nodes fit the decoder's tree. */
  lemma {:induction false} NodesFit(order: seq<Node>, sizes: seq<nat>, s: nat, k: nat)
    requires Accepted(sizes) && |sizes| <= MAX_SYMBOLS && s <= |sizes|
    requires NoDuplicates(order) && KeysOk(order, sizes, s, k) && (s < |sizes| ==> k < sizes[s] || k < FAST_BITS)
    ensures |order| <= MAX_SYMBOLS
  {
    AcceptedFits(sizes);
    hide KeysOk, Used, FirstCode, SingleBudget, CompleteBudget, NoDuplicates;
    if FirstCode(sizes, 16) == Pow2(16) {
      CompleteBudgetSize(sizes);
      forall n | n in order
        ensures n in CompleteBudget(sizes)
      {
        var t := OwnerOf(order, sizes, s, k, n);
        InnerInBudget(sizes, t, n.level);
      }
      DistinctFit(order, CompleteBudget(sizes));
    } else if order != [] {
      assert order[0] in order;
      var t0 := OwnerOf(order, sizes, s, k, order[0]);
      forall n | n in order
        ensures n in SingleBudget(sizes, t0)
      {
        var t := OwnerOf(order, sizes, s, k, n);
        UsedSymbols(sizes, if t < t0 then t else t0, if t < t0 then t0 else t);
        InSingleBudget(sizes, t0, n.level);
      }
      DistinctFit(order, SingleBudget(sizes, t0));
      SingleBudgetSize(sizes, t0);
    }
  }

  lemma {:induction false} InnerInBudget(sizes: seq<nat>, s: nat, k: nat)
    requires NotOversubscribed(sizes) && s < |sizes| && 10 <= k < sizes[s] && k <= 14
    ensures Node(k, Path(sizes, s, k)) in CompleteBudget(sizes)
  {
    hide PrefixSet, FirstInner, Path, Pow2;
    InnerValue(sizes, s, k);
  }

  lemma {:induction false} InSingleBudget(sizes: seq<nat>, s: nat, k: nat)
    requires s < |sizes| && 10 <= k <= 14
    ensures Node(k, Path(sizes, s, k)) in SingleBudget(sizes, s)
  {
    hide Path;
  }

  lemma {:induction false} SingleBudgetSize(sizes: seq<nat>, s: nat)
    requires s < |sizes|
    ensures |SingleBudget(sizes, s)| <= 5
  {
    hide Path;
  }

  lemma {:induction false} OwnerOf(order: seq<Node>, sizes: seq<nat>, s: nat, k: nat, n: Node) returns (t: nat)
    requires Lengths(sizes) && s <= |sizes| && KeysOk(order, sizes, s, k) && n in order
    requires s < |sizes| ==> k < sizes[s] || k < FAST_BITS
    ensures t < |sizes| && 10 <= n.level < sizes[t] && n.level <= 14 && n == Node(n.level, Path(sizes, t, n.level))
  {
    assert n == Node(n.level, n.path);
    assert Known(sizes, s, k, n.level, n.path);
    if Inner(sizes, s, n.level, n.path) {
      t :| 0 <= t < s && sizes[t] > n.level && Path(sizes, t, n.level) == n.path;
    } else {
      t := s;
    }
  }
}
