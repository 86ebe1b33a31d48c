/** Code lengths seen abstractly: the Kraft sum of a vector of lengths, its weighted total,
    and the least weighted total that any prefix code for the same weights can have. */
module PrefixCode {
  import opened Powers

  ghost predicate AtMost(ls: seq<nat>, scale: nat) {
    forall i | 0 <= i < |ls| :: ls[i] <= scale
  }

  /** The Kraft sum of `ls`, scaled by two to the power `scale`. */
  ghost function KraftSum(ls: seq<nat>, scale: nat): nat
    requires AtMost(ls, scale)
  {
    if ls == [] then 0 else Pow2(scale - ls[0]) + KraftSum(ls[1..], scale)
  }

  /** `ls` are the codeword lengths of some prefix code. */
  ghost predicate IsPrefixCode(ls: seq<nat>, scale: nat) {
    AtMost(ls, scale) && KraftSum(ls, scale) <= Pow2(scale)
  }

  ghost function WeightedTotal(ws: seq<nat>, ls: seq<nat>): nat
    requires |ws| == |ls|
  {
    if ws == [] then 0 else ws[0] * ls[0] + WeightedTotal(ws[1..], ls[1..])
  }

  ghost predicate IsMin(m: multiset<nat>, x: nat) {
    x in m && forall y :: y in m ==> x <= y
  }

  lemma {:induction false} HasMin(m: multiset<nat>) returns (x: nat)
    requires m != multiset{}
    ensures IsMin(m, x)
    decreases |m|
  {
    x :| x in m;
    var rest := m - multiset{x};
    if rest != multiset{} {
      var y := HasMin(rest);
      assert forall z :: z in m ==> z == x || z in rest;
      assert y in m;
      if y < x { x := y; }
    } else {
      assert m == multiset{x};
    }
  }

  ghost function Min(m: multiset<nat>): (x: nat)
    requires m != multiset{}
    ensures IsMin(m, x)
  {
    HasMinExists(m);
    var x :| IsMin(m, x);
    x
  }

  lemma {:induction false} HasMinExists(m: multiset<nat>)
    requires m != multiset{}
    ensures exists x :: IsMin(m, x)
  {
    var x := HasMin(m);
  }

  /** Replaces the two smallest weights by their sum. */
  ghost function MergeSmallest(m: multiset<nat>): (r: multiset<nat>)
    requires |m| >= 2
    ensures |r| == |m| - 1
  {
    var a := Min(m);
    assert |m - multiset{a}| == |m| - 1;
    var b := Min(m - multiset{a});
    m - multiset{a} - multiset{b} + multiset{a + b}
  }

  /** The sum of the two smallest weights. */
  ghost function SmallestPair(m: multiset<nat>): nat
    requires |m| >= 2
  {
    var a := Min(m);
    assert |m - multiset{a}| == |m| - 1;
    a + Min(m - multiset{a})
  }

  /** The total weight of all merges when the two smallest weights are merged until one is left. */
  ghost function GreedyCost(m: multiset<nat>): nat
    decreases |m|
  {
    if |m| < 2 then 0 else SmallestPair(m) + GreedyCost(MergeSmallest(m))
  }

  // ---------------------------------------------------------------- sums over one position

  ghost function RemoveAt<T>(s: seq<T>, i: nat): seq<T>
    requires i < |s|
  {
    s[..i] + s[i + 1..]
  }

  lemma {:induction false} KraftRemoveAt(ls: seq<nat>, scale: nat, i: nat)
    requires i < |ls| && AtMost(ls, scale)
    ensures AtMost(RemoveAt(ls, i), scale)
    ensures KraftSum(ls, scale) == KraftSum(RemoveAt(ls, i), scale) + Pow2(scale - ls[i])
  {
    if i == 0 {
      assert RemoveAt(ls, 0) == ls[1..];
    } else {
      KraftRemoveAt(ls[1..], scale, i - 1);
      assert RemoveAt(ls, i)[1..] == RemoveAt(ls[1..], i - 1);
    }
  }

  lemma {:induction false} TotalRemoveAt(ws: seq<nat>, ls: seq<nat>, i: nat)
    requires |ws| == |ls| && i < |ls|
    ensures WeightedTotal(ws, ls) == WeightedTotal(RemoveAt(ws, i), RemoveAt(ls, i)) + ws[i] * ls[i]
  {
    if i == 0 {
      assert RemoveAt(ls, 0) == ls[1..] && RemoveAt(ws, 0) == ws[1..];
    } else {
      TotalRemoveAt(ws[1..], ls[1..], i - 1);
      assert RemoveAt(ls, i)[1..] == RemoveAt(ls[1..], i - 1);
      assert RemoveAt(ws, i)[1..] == RemoveAt(ws[1..], i - 1);
    }
  }

  lemma {:induction false} RemoveAtUpdate<T>(s: seq<T>, i: nat, x: T)
    requires i < |s|
    ensures RemoveAt(s[i := x], i) == RemoveAt(s, i)
  {
    assert s[i := x][..i] == s[..i];
    assert s[i := x][i + 1..] == s[i + 1..];
  }

  lemma {:induction false} KraftUpdate(ls: seq<nat>, scale: nat, i: nat, l: nat)
    requires i < |ls| && l <= scale && AtMost(ls, scale)
    ensures AtMost(ls[i := l], scale)
    ensures KraftSum(ls[i := l], scale) + Pow2(scale - ls[i]) == KraftSum(ls, scale) + Pow2(scale - l)
  {
    var us: seq<nat> := ls[i := l];
    assert AtMost(us, scale);
    assert us[i] == l;
    assert KraftSum(ls, scale) == KraftSum(RemoveAt(ls, i), scale) + Pow2(scale - ls[i]) by {
      KraftRemoveAt(ls, scale, i);
    }
    assert KraftSum(us, scale) == KraftSum(RemoveAt(us, i), scale) + Pow2(scale - l) by {
      KraftRemoveAt(us, scale, i);
    }
    assert RemoveAt(us, i) == RemoveAt(ls, i) by {
      RemoveAtUpdate(ls, i, l);
    }
  }

  lemma {:induction false} TotalUpdate(ws: seq<nat>, ls: seq<nat>, i: nat, w: nat, l: nat)
    requires |ws| == |ls| && i < |ls|
    ensures WeightedTotal(ws[i := w], ls[i := l]) + ws[i] * ls[i] == WeightedTotal(ws, ls) + w * l
  {
    var vs: seq<nat> := ws[i := w];
    var us: seq<nat> := ls[i := l];
    assert WeightedTotal(ws, ls) == WeightedTotal(RemoveAt(ws, i), RemoveAt(ls, i)) + ws[i] * ls[i] by {
      TotalRemoveAt(ws, ls, i);
    }
    assert WeightedTotal(vs, us) == WeightedTotal(RemoveAt(vs, i), RemoveAt(us, i)) + w * l by {
      TotalRemoveAt(vs, us, i);
    }
    assert RemoveAt(vs, i) == RemoveAt(ws, i) && RemoveAt(us, i) == RemoveAt(ls, i) by {
      RemoveAtUpdate(ws, i, w);
      RemoveAtUpdate(ls, i, l);
    }
  }

  lemma {:induction false} MultisetRemoveAt<T>(s: seq<T>, i: nat)
    requires i < |s|
    ensures multiset(s) == multiset(RemoveAt(s, i)) + multiset{s[i]}
  {
    assert s == s[..i] + [s[i]] + s[i + 1..];
  }

  lemma {:induction false} KraftHalve(ls: seq<nat>, scale: nat)
    requires scale > 0 && AtMost(ls, scale - 1)
    ensures KraftSum(ls, scale) == 2 * KraftSum(ls, scale - 1)
  {
    if ls != [] {
      KraftHalve(ls[1..], scale);
    }
  }

  lemma {:induction false} KraftAtLeastCount(ls: seq<nat>, scale: nat)
    requires AtMost(ls, scale)
    ensures KraftSum(ls, scale) >= |ls|
  {
    if ls != [] {
      KraftAtLeastCount(ls[1..], scale);
    }
  }

  // ---------------------------------------------------------------- the greedy cost is a lower bound

  lemma {:induction false} MultisetUpdate<T>(s: seq<T>, i: nat, x: T)
    requires i < |s|
    ensures multiset(s[i := x]) == multiset(s) - multiset{s[i]} + multiset{x}
  {
    var t := s[i := x];
    MultisetRemoveAt(s, i);
    MultisetRemoveAt(t, i);
    RemoveAtUpdate(s, i, x);
  }

  lemma {:induction false} ProductExchange(a: nat, b: nat, k: nat, l: nat)
    requires a <= b && k <= l
    ensures a * l + b * k <= a * k + b * l
  {
    assert (b - a) * (l - k) >= 0;
  }

  /** Handing a smaller weight the longer of two codewords does not raise the total. */
  lemma {:induction false} SwapWeights(ws: seq<nat>, ls: seq<nat>, i: nat, p: nat) returns (vs: seq<nat>)
    requires |ws| == |ls| && i < |ws| && p < |ws|
    requires ls[p] <= ls[i] && ws[p] <= ws[i]
    ensures vs == ws[i := ws[p]][p := ws[i]]
    ensures multiset(vs) == multiset(ws)
    ensures WeightedTotal(vs, ls) <= WeightedTotal(ws, ls)
  {
    var us: seq<nat> := ws[i := ws[p]];
    vs := us[p := ws[i]];
    if i == p {
      assert vs == ws;
    } else {
      assert ls[i := ls[i]] == ls && ls[p := ls[p]] == ls;
      assert WeightedTotal(us, ls) + ws[i] * ls[i] == WeightedTotal(ws, ls) + ws[p] * ls[i] by {
        TotalUpdate(ws, ls, i, ws[p], ls[i]);
      }
      assert WeightedTotal(vs, ls) + ws[p] * ls[p] == WeightedTotal(us, ls) + ws[i] * ls[p] by {
        TotalUpdate(us, ls, p, ws[i], ls[p]);
      }
      ProductExchange(ws[p], ws[i], ls[p], ls[i]);
      MultisetUpdate(ws, i, ws[p]);
      MultisetUpdate(us, p, ws[i]);
    }
  }

  /** The position, other than `i`, of a smallest weight among the positions other than `i`. */
  lemma {:induction false} SmallestBut(us: seq<nat>, i: nat) returns (q: nat)
    requires i < |us| && |us| >= 2
    ensures q < |us| && q != i
    ensures multiset(us) - multiset{us[i]} != multiset{}
    ensures us[q] == Min(multiset(us) - multiset{us[i]})
    ensures forall k :: 0 <= k < |us| && k != i ==> us[q] <= us[k]
  {
    var rest := RemoveAt(us, i);
    MultisetRemoveAt(us, i);
    assert multiset(us) - multiset{us[i]} == multiset(rest);
    assert |multiset(rest)| == |rest|;
    var b := Min(multiset(rest));
    assert b in rest;
    var r :| 0 <= r < |rest| && rest[r] == b;
    q := if r < i then r else r + 1;
    forall k | 0 <= k < |us| && k != i
      ensures us[q] <= us[k]
    {
      assert us[k] == rest[if k < i then k else k - 1];
      assert us[k] in multiset(rest);
    }
  }

  /** Moves the two smallest weights to positions `i` and `j`, which hold the longest codewords. */
  lemma {:induction false} SmallestToLongest(ws: seq<nat>, ls: seq<nat>, i: nat, j: nat) returns (vs: seq<nat>)
    requires |ws| == |ls| && i < |ws| && j < |ws| && i != j
    requires forall k | 0 <= k < |ls| :: ls[k] <= ls[i] && ls[k] <= ls[j]
    ensures |vs| == |ws| && multiset(vs) == multiset(ws)
    ensures WeightedTotal(vs, ls) <= WeightedTotal(ws, ls)
    ensures multiset(ws) != multiset{} && vs[i] == Min(multiset(ws))
    ensures multiset(ws) - multiset{vs[i]} != multiset{} && vs[j] == Min(multiset(ws) - multiset{vs[i]})
  {
    assert ws[i] in multiset(ws);
    var a := Min(multiset(ws));
    assert a in ws;
    var p :| 0 <= p < |ws| && ws[p] == a;
    var us := SwapWeights(ws, ls, i, p);
    assert us[i] == a;
    var q := SmallestBut(us, i);
    vs := SwapWeights(us, ls, j, q);
  }

  /** Merging the two longest codewords keeps the Kraft sum. */
  lemma {:induction false} MergedIsPrefixCode(ls: seq<nat>, scale: nat, i: nat, j: nat)
    requires i < j < |ls| && scale > 0
    requires IsPrefixCode(ls, scale) && ls[i] == ls[j] == scale
    ensures IsPrefixCode(RemoveAt(ls, j)[i := scale - 1], scale)
  {
    var lr := RemoveAt(ls, j);
    assert lr[i] == scale;
    KraftRemoveAt(ls, scale, j);
    KraftUpdate(lr, scale, i, scale - 1);
    assert Pow2(0) == 1 && Pow2(1) == 2;
  }

  /** Merging two equally long codewords saves one bit of their joint weight. */
  lemma {:induction false} MergedTotal(vs: seq<nat>, ls: seq<nat>, scale: nat, i: nat, j: nat)
    requires |vs| == |ls| && i < j < |vs| && scale > 0
    requires ls[i] == ls[j] == scale
    ensures WeightedTotal(vs, ls)
         == WeightedTotal(RemoveAt(vs, j)[i := vs[i] + vs[j]], RemoveAt(ls, j)[i := (scale - 1) as nat]) + vs[i] + vs[j]
  {
    var vr, lr := RemoveAt(vs, j), RemoveAt(ls, j);
    assert vr[i] == vs[i] && lr[i] == scale;
    TotalRemoveAt(vs, ls, j);
    TotalUpdate(vr, lr, i, vs[i] + vs[j], scale - 1);
    MergedProduct(vs[i], vs[j], scale);
  }

  lemma {:induction false} MergedWeights(vs: seq<nat>, i: nat, j: nat)
    requires i < j < |vs|
    ensures multiset(RemoveAt(vs, j)[i := vs[i] + vs[j]])
         == multiset(vs) - multiset{vs[i]} - multiset{vs[j]} + multiset{vs[i] + vs[j]}
  {
    MultisetRemoveAt(vs, j);
    MultisetUpdate(RemoveAt(vs, j), i, vs[i] + vs[j]);
  }

  lemma {:induction false} MergedProduct(a: nat, b: nat, scale: nat)
    requires scale > 0
    ensures (a + b) * (scale - 1) + a + b == a * scale + b * scale
  {
  }

  /** With two longest codewords, one greedy merge yields a smaller instance that costs one merge less. */
  lemma {:induction false} GreedyStep(ws: seq<nat>, ls: seq<nat>, scale: nat, i: nat, j: nat)
    returns (vs': seq<nat>, ls': seq<nat>)
    requires |ws| == |ls| && scale > 0 && IsPrefixCode(ls, scale)
    requires i < j < |ls| && ls[i] == scale && ls[j] == scale
    ensures |vs'| == |ls'| == |ws| - 1 && IsPrefixCode(ls', scale)
    ensures |multiset(ws)| == |ws| && multiset(vs') == MergeSmallest(multiset(ws))
    ensures WeightedTotal(ws, ls) >= WeightedTotal(vs', ls') + SmallestPair(multiset(ws))
  {
    hide WeightedTotal, KraftSum, Min, MergeSmallest, SmallestPair, RemoveAt;
    var vs := SmallestToLongest(ws, ls, i, j);
    vs', ls' := MergeAt(vs, ls, scale, i, j);
    SameSize(ws);
    MergeOfSmallest(multiset(ws), vs[i], vs[j], multiset(vs'));
  }

  lemma SameSize(ws: seq<nat>)
    ensures |multiset(ws)| == |ws|
  {
  }

  lemma {:induction false} MergeOfSmallest(m: multiset<nat>, a: nat, b: nat, merged: multiset<nat>)
    requires |m| >= 2 && m != multiset{} && a == Min(m)
    requires m - multiset{a} != multiset{} && b == Min(m - multiset{a})
    requires merged == m - multiset{a} - multiset{b} + multiset{a + b}
    ensures merged == MergeSmallest(m) && SmallestPair(m) == a + b
  {
    hide Min;
  }

  lemma {:induction false} MergeAt(vs: seq<nat>, ls: seq<nat>, scale: nat, i: nat, j: nat)
    returns (vs': seq<nat>, ls': seq<nat>)
    requires |vs| == |ls| && scale > 0 && IsPrefixCode(ls, scale)
    requires i < j < |ls| && ls[i] == scale && ls[j] == scale
    ensures |vs'| == |ls'| == |vs| - 1 && IsPrefixCode(ls', scale)
    ensures multiset(vs') == multiset(vs) - multiset{vs[i]} - multiset{vs[j]} + multiset{vs[i] + vs[j]}
    ensures WeightedTotal(vs, ls) == WeightedTotal(vs', ls') + vs[i] + vs[j]
  {
    MergedIsPrefixCode(ls, scale, i, j);
    MergedTotal(vs, ls, scale, i, j);
    MergedWeights(vs, i, j);
    vs', ls' := RemoveAt(vs, j)[i := vs[i] + vs[j]], RemoveAt(ls, j)[i := (scale - 1) as nat];
  }

  /** No prefix code has a smaller weighted total than greedy merging. */
  lemma {:induction false} GreedyIsLowerBound(ws: seq<nat>, ls: seq<nat>, scale: nat)
    requires |ws| == |ls| && IsPrefixCode(ls, scale)
    ensures WeightedTotal(ws, ls) >= GreedyCost(multiset(ws))
    decreases |ws|, scale
  {
    assert |multiset(ws)| == |ws|;
    if |ws| < 2 {
      return;
    }
    KraftAtLeastCount(ls, scale);
    assert scale > 0;
    if i, j :| 0 <= i < j < |ls| && ls[i] == scale && ls[j] == scale {
      var vs', ls' := GreedyStep(ws, ls, scale, i, j);
      GreedyIsLowerBound(vs', ls', scale);
    } else if i :| 0 <= i < |ls| && ls[i] == scale {
      var ls' := LoseLastBit(ws, ls, scale, i);
      GreedyIsLowerBound(ws, ls', scale - 1);
    } else {
      KraftHalve(ls, scale);
      GreedyIsLowerBound(ws, ls, scale - 1);
    }
  }

  lemma {:induction false} LoseLastBit(ws: seq<nat>, ls: seq<nat>, scale: nat, i: nat) returns (ls': seq<nat>)
    requires |ws| == |ls| && i < |ls| && scale > 0 && IsPrefixCode(ls, scale) && ls[i] == scale
    requires forall k | 0 <= k < |ls| && k != i :: ls[k] < scale
    ensures |ls'| == |ls| && IsPrefixCode(ls', scale - 1)
    ensures WeightedTotal(ws, ls') <= WeightedTotal(ws, ls)
  {
    ls' := ls[i := (scale - 1) as nat];
    ShortenSingleLongest(ls, scale, i);
    TotalUpdate(ws, ls, i, ws[i], scale - 1);
    assert ws[i := ws[i]] == ws;
    assert ws[i] * (scale - 1) <= ws[i] * scale;
  }

  /** A longest codeword without an equally long partner can lose its last bit. */
  lemma {:induction false} ShortenSingleLongest(ls: seq<nat>, scale: nat, i: nat)
    requires i < |ls| && scale > 0 && IsPrefixCode(ls, scale) && ls[i] == scale
    requires forall k | 0 <= k < |ls| && k != i :: ls[k] < scale
    ensures IsPrefixCode(ls[i := scale - 1], scale - 1)
  {
    var ls' := ls[i := (scale - 1) as nat];
    KraftRemoveAt(ls, scale, i);
    assert AtMost(RemoveAt(ls, i), scale - 1);
    KraftHalve(RemoveAt(ls, i), scale);
    KraftRemoveAt(ls', scale - 1, i);
    RemoveAtUpdate(ls, i, scale - 1);
    assert Pow2(0) == 1;
  }
}
