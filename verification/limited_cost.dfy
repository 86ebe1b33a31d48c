/** What limiting the code lengths to 15 bits costs: less than one bit for every symbol coded. */
module LimitedCost {
  import opened Powers
  import opened PrefixCode
  import opened HuffmanDepths
  import opened MinimumRedundancy
  import opened LengthCounts

  const LIMIT := 15

  ghost function Capped(ls: seq<nat>): (z: seq<nat>)
    ensures |z| == |ls| && forall i | 0 <= i < |ls| :: z[i] == if ls[i] < LIMIT then ls[i] else LIMIT
  {
    seq(|ls|, i requires 0 <= i < |ls| => if ls[i] < LIMIT then ls[i] else LIMIT)
  }

  // ---------------------------------------------------------------- comparing weighted totals

  lemma {:induction false} TotalMonotone(f: seq<nat>, a: seq<nat>, b: seq<nat>)
    requires |f| == |a| == |b| && forall i | 0 <= i < |f| :: a[i] <= b[i]
    ensures WeightedTotal(f, a) <= WeightedTotal(f, b)
  {
    if f != [] {
      TotalMonotone(f[1..], a[1..], b[1..]);
      assert f[0] * a[0] <= f[0] * b[0];
    }
  }

  /** The lengths with all of the first `k` at the limit. */
  ghost function Raised(z: seq<nat>, k: nat): (r: seq<nat>)
    requires k <= |z|
    ensures |r| == |z| && forall i | 0 <= i < |z| :: r[i] == if i < k then LIMIT else z[i]
  {
    seq(|z|, i requires 0 <= i < |z| => if i < k then LIMIT else z[i])
  }

  /** What raising one length to the limit costs. */
  ghost function Raise(w: nat, v: nat): nat
    requires v <= LIMIT
  {
    w * (LIMIT - v)
  }

  /** What raising the first `k` lengths to the limit costs. */
  ghost function RaiseCost(f: seq<nat>, z: seq<nat>, k: nat): nat
    requires k <= |f| == |z| && AtMost(z, LIMIT)
  {
    if k == 0 then 0 else RaiseCost(f, z, k - 1) + Raise(f[k - 1], z[k - 1])
  }

  lemma {:induction false} RaisedTotal(f: seq<nat>, z: seq<nat>, k: nat)
    requires k <= |f| == |z| && AtMost(z, LIMIT)
    ensures WeightedTotal(f, Raised(z, k)) == WeightedTotal(f, z) + RaiseCost(f, z, k)
  {
    if k == 0 {
      assert Raised(z, 0) == z;
    } else {
      RaisedTotal(f, z, k - 1);
      var r := Raised(z, k - 1);
      TotalUpdate(f, r, k - 1, f[k - 1], LIMIT);
      assert r[k - 1 := LIMIT] == Raised(z, k) && f[k - 1 := f[k - 1]] == f;
      assert f[k - 1] * LIMIT == f[k - 1] * z[k - 1] + f[k - 1] * (LIMIT - z[k - 1]);
    }
  }

  // ---------------------------------------------------------------- rare symbols have the long codes

  lemma FibValues()
    ensures Fib(8) == 21 && Fib(9) == 34 && Fib(10) == 55 && Fib(11) == 89
    ensures Fib(12) == 144 && Fib(13) == 233 && Fib(14) == 377 && Fib(15) == 610
  {
  }

  lemma SmallPow2()
    ensures Pow2(0) == 1 && Pow2(1) == 2 && Pow2(2) == 4 && Pow2(3) == 8 && Pow2(4) == 16
    ensures Pow2(5) == 32 && Pow2(6) == 64 && Pow2(7) == 128 && Pow2(8) == 256 && Pow2(9) == 512
  {
  }

  /** Raising a code of 7 to 14 bits to 15 costs little for the room it frees. */
  lemma {:induction false} CheapToRaise(w: nat, v: nat, total: nat)
    requires 7 <= v <= LIMIT && (v < LIMIT ==> Fib(v + 1) * w <= total)
    ensures 540 * Raise(w, v) <= total * (Pow2(LIMIT - v) - 1)
  {
    FibValues();
    SmallPow2();
    hide Fib, Pow2;
    if v == LIMIT {
    } else if v == 14 {
    } else if v == 13 {
    } else if v == 12 {
    } else if v == 11 {
    } else if v == 10 {
    } else if v == 9 {
    } else if v == 8 {
    } else {
    }
  }

  lemma {:induction false} LastRaise(w: nat, v: nat, total: nat)
    requires 7 <= v < LIMIT && Fib(v + 1) * w <= total
    ensures 21 * Raise(w, v) <= 8 * total
    ensures v >= 11 ==> 144 * Raise(w, v) <= 4 * total
  {
    FibValues();
    hide Fib;
    if v == 14 {
    } else if v == 13 {
    } else if v == 12 {
    } else if v == 11 {
    } else if v == 10 {
    } else if v == 9 {
    } else if v == 8 {
    } else {
    }
  }

  /** A code that may still be raised belongs to a rare symbol. */
  lemma {:induction false} RareAt(f: seq<nat>, ls: seq<nat>, i: nat)
    requires i < |f| == |ls| && LongIsRare(f, ls)
    ensures Capped(ls)[i] < LIMIT ==> Fib(Capped(ls)[i] + 1) * f[i] <= Sum(f)
  {
    hide Sum, Fib;
    assert ls[i] < LIMIT ==> Capped(ls)[i] == ls[i];
  }

  lemma {:induction false} OneMoreCode(z: seq<nat>, q: nat)
    requires 0 < q <= |z| && AtMost(z, LIMIT)
    ensures KraftSum(z[..q], LIMIT) == KraftSum(z[..q - 1], LIMIT) + Pow2(LIMIT - z[q - 1])
  {
    hide Pow2, KraftSum;
    assert z[..q] == z[..q - 1] + [z[q - 1]];
    KraftSumConcat(z[..q - 1], [z[q - 1]], LIMIT);
    KraftOne(z[q - 1]);
  }

  lemma Added(extra: int, more: int, total: nat, room: int, freed: int)
    requires 540 * extra <= total * room && 540 * more <= total * freed
    ensures 540 * (extra + more) <= total * (room + freed)
  {
  }

  lemma {:induction false} RaiseByRoom(f: seq<nat>, ls: seq<nat>, q: nat)
    requires q <= |f| == |ls| && LongIsRare(f, ls) && forall i | 0 <= i < q :: ls[i] >= 7
    ensures 540 * RaiseCost(f, Capped(ls), q) <= Sum(f) * (KraftSum(Capped(ls)[..q], LIMIT) - q)
  {
    hide Pow2, Fib, Sum, LongIsRare, Raise, RaiseCost, KraftSum;
    var z := Capped(ls);
    if q == 0 {
      NothingRaised(f, z);
    } else {
      RaiseByRoom(f, ls, q - 1);
      RareAt(f, ls, q - 1);
      CheapToRaise(f[q - 1], z[q - 1], Sum(f));
      RaiseOne(f, z, q - 1);
      OneMoreCode(z, q);
      Added(RaiseCost(f, z, q - 1), Raise(f[q - 1], z[q - 1]), Sum(f),
            KraftSum(z[..q - 1], LIMIT) - (q - 1), Pow2(LIMIT - z[q - 1]) - 1);
    }
  }

  lemma NothingRaised(f: seq<nat>, z: seq<nat>)
    requires |f| == |z| && AtMost(z, LIMIT)
    ensures RaiseCost(f, z, 0) == 0 && KraftSum(z[..0], LIMIT) == 0
  {
    assert z[..0] == [];
  }

  lemma KraftOne(v: nat)
    requires v <= LIMIT
    ensures AtMost([v], LIMIT) && KraftSum([v], LIMIT) == Pow2(LIMIT - v)
  {
    assert [v][1..] == [];
  }

  /** Few symbols leave room for few short codes among those raised. */
  lemma {:induction false} NotShort(v: nat, q: nat)
    requires v <= LIMIT && Pow2(LIMIT - v) < q
    ensures q < 286 ==> v >= 7
    ensures q < 30 ==> v >= 11
  {
    SmallPow2();
    if v < 11 {
      Pow2Monotone(5, LIMIT - v);
    }
    if v < 7 {
      Pow2Monotone(9, LIMIT - v);
    }
    hide Pow2;
  }

  // ---------------------------------------------------------------- the result

  /** Hundredths of a bit for each symbol coded. */
  ghost function Percent(n: nat): nat {
    if n <= 30 then 9 else 91
  }

  /**
   * The limited lengths cost at most 0.91 bits for each symbol coded more than the unlimited ones, and with up to 30
   * symbols at most 0.09 bits.
   */
  lemma {:induction false} LimitIsCheap(f: seq<nat>, ls: seq<nat>, z: seq<nat>, turns: nat)
    requires |f| == |ls| == |z| <= 286 && LongIsRare(f, ls) && Descending(ls)
    requires Reached(Capped(ls), z, LIMIT, turns) && AtMost(z, LIMIT) && (turns == 0 || turns < |f|)
    ensures 100 * WeightedTotal(f, z) <= 100 * WeightedTotal(f, ls) + Percent(|f|) * Sum(f)
  {
    hide Sum, WeightedTotal, KraftSum, Pow2, Fib, RaiseCost;
    var z0 := Capped(ls);
    TotalMonotone(f, z0, ls);
    if z != z0 {
      var q: nat :| ReachedTo(z0, z, q, LIMIT, turns);
      AllRaised(f, z0, z, q, turns);
      RaiseIsCheap(f, ls, q, turns);
    }
  }

  /** Instead of the codes that changed, all of the first ones are raised to the limit. */
  lemma {:induction false} AllRaised(f: seq<nat>, z0: seq<nat>, z: seq<nat>, q: nat, turns: nat)
    requires |f| == |z0| && ReachedTo(z0, z, q, LIMIT, turns) && AtMost(z, LIMIT)
    ensures WeightedTotal(f, z) <= WeightedTotal(f, z0) + RaiseCost(f, z0, q + 1)
  {
    hide WeightedTotal, KraftSum, Pow2, RaiseCost;
    TotalMonotone(f, z, Raised(z0, q + 1));
    RaisedTotal(f, z0, q + 1);
  }

  lemma LongBefore(ls: seq<nat>, q: nat, least: nat)
    requires q < |ls| && Descending(ls) && ls[q] >= least
    ensures forall i | 0 <= i < q :: ls[i] >= least
  {
  }

  lemma {:induction false} RaiseIsCheap(f: seq<nat>, ls: seq<nat>, q: nat, turns: nat)
    requires q < |f| == |ls| <= 286 && LongIsRare(f, ls) && Descending(ls) && turns < |f|
    requires Capped(ls)[q] < LIMIT && KraftSum(Capped(ls)[..q], LIMIT) - q <= turns - 1
    requires Pow2(LIMIT - Capped(ls)[q]) < q
    ensures 100 * RaiseCost(f, Capped(ls), q + 1) <= Percent(|f|) * Sum(f)
  {
    hide Sum, KraftSum, Pow2, Fib, RaiseCost, Percent, LongIsRare, Descending;
    var z0 := Capped(ls);
    NotShort(z0[q], q);
    assert ls[q] == z0[q];
    LongBefore(ls, q, 7);
    RaiseByRoom(f, ls, q);
    var last := LastIsCheap(f, ls, q);
    var extra, room := RaiseCost(f, z0, q), KraftSum(z0[..q], LIMIT) - q;
    Hundredths(extra, last, Sum(f), room, |f|);
  }

  /** What raising the last code costs. */
  lemma {:induction false} LastIsCheap(f: seq<nat>, ls: seq<nat>, q: nat) returns (last: nat)
    requires q < |f| == |ls| && LongIsRare(f, ls) && 7 <= Capped(ls)[q] < LIMIT
    ensures RaiseCost(f, Capped(ls), q + 1) == RaiseCost(f, Capped(ls), q) + last
    ensures 21 * last <= 8 * Sum(f) && (Capped(ls)[q] >= 11 ==> 144 * last <= 4 * Sum(f))
  {
    hide Sum, Fib, Raise, RaiseCost, LongIsRare;
    RareAt(f, ls, q);
    LastRaise(f[q], Capped(ls)[q], Sum(f));
    RaiseOne(f, Capped(ls), q);
    last := Raise(f[q], Capped(ls)[q]);
  }

  lemma RaiseOne(f: seq<nat>, z: seq<nat>, q: nat)
    requires q < |f| == |z| && AtMost(z, LIMIT)
    ensures RaiseCost(f, z, q + 1) == RaiseCost(f, z, q) + Raise(f[q], z[q])
  {
  }

  lemma FewTurns(total: nat, room: int, turns: int)
    requires room <= turns
    ensures total * room <= total * turns
  {
  }

  lemma {:induction false} Hundredths(extra: nat, last: nat, total: nat, room: int, n: nat)
    requires 540 * extra <= total * room && room + 1 < n <= 286
    requires 21 * last <= 8 * total && (n <= 30 ==> 144 * last <= 4 * total)
    ensures 100 * (extra + last) <= Percent(n) * total
  {
    if n <= 30 {
      FewTurns(total, room, 28);
    } else {
      FewTurns(total, room, 284);
    }
  }
}
