/** The symbols that occur: collected, sorted by frequency, and what codes for them cost. */
module UsedSymbols {
  import opened Powers
  import opened PrefixCode
  import opened SymbolFrequency
  import opened RadixSort
  import opened HuffmanForest
  import opened MinimumRedundancy
  import opened LengthCounts

  // ---------------------------------------------------------------- a stable sort is a permutation

  lemma {:induction false} MultisetOfKey(s: seq<SymFreq>, x: SymFreq)
    ensures multiset(WithKey(s, x.key))[x] == multiset(s)[x]
  {
    if s != [] {
      var init, last := s[..|s| - 1], s[|s| - 1];
      MultisetOfKey(init, x);
      assert s == init + [last];
    }
  }

  lemma {:induction false} StableSortPermutes(s: seq<SymFreq>, r: seq<SymFreq>)
    requires StableSort(s, r)
    ensures multiset(s) == multiset(r)
  {
    forall x: SymFreq
      ensures multiset(s)[x] == multiset(r)[x]
    {
      MultisetOfKey(s, x);
      MultisetOfKey(r, x);
      var k: nat := x.key;
      assert WithKey(r, k) == WithKey(s, k);
    }
  }

  ghost predicate DistinctSyms(s: seq<SymFreq>) {
    forall i, j | 0 <= i < j < |s| :: s[i].sym != s[j].sym
  }

  lemma {:induction false} TwoOccurrences<T>(s: seq<T>, i: nat, j: nat)
    requires i < j < |s| && s[i] == s[j]
    ensures multiset(s)[s[i]] >= 2
  {
    assert s == s[..i] + [s[i]] + s[i + 1..j] + [s[j]] + s[j + 1..];
  }

  lemma {:induction false} OneOccurrence(s: seq<SymFreq>, x: SymFreq)
    requires DistinctSyms(s)
    ensures multiset(s)[x] <= 1
  {
    if s != [] {
      var init, last := s[..|s| - 1], s[|s| - 1];
      OneOccurrence(init, x);
      assert s == init + [last];
      assert forall i | 0 <= i < |init| :: init[i] == s[i] && s[i].sym != last.sym;
    }
  }

  /** A permutation of entries with distinct symbols has distinct symbols. */
  lemma {:induction false} PermutationDistinct(s: seq<SymFreq>, r: seq<SymFreq>)
    requires DistinctSyms(s) && multiset(s) == multiset(r)
    ensures DistinctSyms(r)
  {
    forall i, j | 0 <= i < j < |r|
      ensures r[i].sym != r[j].sym
    {
      assert r[i] in multiset(r) && r[j] in multiset(r);
      assert r[i] in s && r[j] in s;
      if r[i] == r[j] {
        TwoOccurrences(r, i, j);
        OneOccurrence(s, r[i]);
      }
    }
  }

  // ---------------------------------------------------------------- collecting the used symbols

  /** The entries of the symbols below `n` that occur. */
  ghost function UsedEntries(counts: seq<Word16>, n: nat): (r: seq<SymFreq>)
    requires n <= |counts| <= 0x10000
    ensures |r| <= n
  {
    if n == 0 then []
    else UsedEntries(counts, n - 1) + (if counts[n - 1] != 0 then [SymFreq(counts[n - 1], n - 1)] else [])
  }

  lemma {:induction false} UsedEntriesMeaning(counts: seq<Word16>, n: nat)
    requires n <= |counts| <= 0x10000
    ensures forall i | 0 <= i < |UsedEntries(counts, n)| ::
      var e := UsedEntries(counts, n)[i]; e.sym < n && e.key == counts[e.sym] > 0
    ensures DistinctSyms(UsedEntries(counts, n))
    ensures forall s: Word16 | s < n && counts[s] > 0 :: SymFreq(counts[s], s) in UsedEntries(counts, n)
  {
    if n > 0 {
      UsedEntriesMeaning(counts, n - 1);
    }
  }

  method CollectUsed(counts: seq<Word16>, syms: array<SymFreq>) returns (used: nat)
    requires |counts| <= syms.Length && |counts| <= 0x10000
    modifies syms
    ensures used <= |counts| && syms[..used] == UsedEntries(counts, |counts|)
  {
    used := 0;
    var i := 0;
    while i < |counts|
      invariant 0 <= i <= |counts| && used <= i
      invariant syms[..used] == UsedEntries(counts, i)
    {
      if counts[i] != 0 {
        syms[used] := SymFreq(counts[i], i);
        used := used + 1;
      }
      i := i + 1;
    }
  }

  ghost function UsedCount(counts: seq<Word16>): nat
    requires |counts| <= 0x10000
  {
    |UsedEntries(counts, |counts|)|
  }

  // ---------------------------------------------------------------- sums over permutations

  ghost function SumKeys(s: seq<SymFreq>): nat {
    if s == [] then 0 else s[0].key + SumKeys(s[1..])
  }

  lemma {:induction false} SumKeysIsSum(s: seq<SymFreq>)
    ensures Sum(Frequencies(s)) == SumKeys(s)
  {
    if s != [] {
      SumKeysIsSum(s[1..]);
      assert Frequencies(s)[1..] == Frequencies(s[1..]);
    }
  }

  lemma {:induction false} SumKeysRemove(s: seq<SymFreq>, i: nat)
    requires i < |s|
    ensures SumKeys(s) == s[i].key + SumKeys(RemoveAt(s, i))
  {
    if i == 0 {
      assert RemoveAt(s, 0) == s[1..];
    } else {
      SumKeysRemove(s[1..], i - 1);
      assert RemoveAt(s, i)[1..] == RemoveAt(s[1..], i - 1);
    }
  }

  lemma {:induction false} SumKeysPermutation(s: seq<SymFreq>, r: seq<SymFreq>)
    requires multiset(s) == multiset(r)
    ensures SumKeys(s) == SumKeys(r)
    decreases |s|
  {
    if s == [] {
      assert |multiset(r)| == 0;
    } else {
      assert s[0] in multiset(r);
      var i :| 0 <= i < |r| && r[i] == s[0];
      SumKeysRemove(r, i);
      MultisetRemoveAt(r, i);
      assert s == [s[0]] + s[1..];
      assert multiset(s) == multiset{s[0]} + multiset(s[1..]);
      var rest := RemoveAt(r, i);
      assert multiset(r) - multiset{s[0]} == multiset(rest);
      assert multiset(s) - multiset{s[0]} == multiset(s[1..]);
      SumKeysPermutation(s[1..], rest);
    }
  }

  ghost function Total(counts: seq<nat>): nat {
    if counts == [] then 0 else Total(counts[..|counts| - 1]) + counts[|counts| - 1]
  }

  lemma {:induction false} UsedEntriesSum(counts: seq<Word16>, n: nat)
    requires n <= |counts| <= 0x10000
    ensures Sum(Frequencies(UsedEntries(counts, n))) == Total(counts[..n])
  {
    if n > 0 {
      UsedEntriesSum(counts, n - 1);
      assert counts[..n][..n - 1] == counts[..n - 1];
      var init := UsedEntries(counts, n - 1);
      if counts[n - 1] != 0 {
        SumAppend(Frequencies(init), counts[n - 1]);
        assert Frequencies(UsedEntries(counts, n)) == Frequencies(init) + [counts[n - 1]];
      } else {
        assert UsedEntries(counts, n) == init;
      }
    }
  }

  /** The entries' symbols become more frequent. */
  ghost predicate ByFrequency(counts: seq<Word16>, syms: seq<SymFreq>) {
    && (forall i | 0 <= i < |syms| :: syms[i].sym < |counts|)
    && forall i, j | 0 <= i <= j < |syms| :: counts[syms[i].sym] <= counts[syms[j].sym]
  }

  /** What sorting the used symbols yields: their frequencies in ascending order, ready for the coder. */
  lemma {:induction false} SortedEntries(counts: seq<Word16>, r: seq<SymFreq>)
    requires |counts| <= 0x10000 && StableSort(UsedEntries(counts, |counts|), r) && Total(counts) < 0x10000
    ensures Ascending(Frequencies(r)) && Sum(Frequencies(r)) < 0x10000
    ensures DistinctSyms(r) && forall i | 0 <= i < |r| :: r[i].sym < |counts| && r[i].key == counts[r[i].sym] >= 1
    ensures forall s: Word16 | s < |counts| && counts[s] > 0 :: exists i :: 0 <= i < |r| && r[i].sym == s
    ensures ByFrequency(counts, r)
  {
    hide UsedEntries, Total, DistinctSyms, Sum, SumKeys;
    var u := UsedEntries(counts, |counts|);
    UsedEntriesMeaning(counts, |counts|);
    StableSortPermutes(u, r);
    PermutationDistinct(u, r);
    UsedEntriesSum(counts, |counts|);
    assert counts[..|counts|] == counts;
    SumKeysIsSum(u);
    SumKeysIsSum(r);
    SumKeysPermutation(u, r);
    SameMembers(u, r);
    SameEntries(counts, u, r);
    AscendingByFrequency(counts, r);
  }

  lemma {:induction false} AscendingByFrequency(counts: seq<Word16>, r: seq<SymFreq>)
    requires Ascending(Frequencies(r))
    requires forall i | 0 <= i < |r| :: r[i].sym < |counts| && r[i].key == counts[r[i].sym]
    ensures ByFrequency(counts, r)
  {
    var f := Frequencies(r);
    assert forall i, j | 0 <= i <= j < |r| :: f[i] <= f[j];
  }

  lemma {:induction false} SameEntries(counts: seq<Word16>, u: seq<SymFreq>, r: seq<SymFreq>)
    requires |counts| <= 0x10000 && forall x :: x in u <==> x in r
    requires forall i | 0 <= i < |u| :: u[i].sym < |counts| && u[i].key == counts[u[i].sym] > 0
    requires forall s: Word16 | s < |counts| && counts[s] > 0 :: SymFreq(counts[s], s) in u
    ensures forall i | 0 <= i < |r| :: r[i].sym < |counts| && r[i].key == counts[r[i].sym] >= 1
    ensures forall s: Word16 | s < |counts| && counts[s] > 0 :: exists i :: 0 <= i < |r| && r[i].sym == s
  {
    forall i | 0 <= i < |r|
      ensures r[i].sym < |counts| && r[i].key == counts[r[i].sym] >= 1
    {
      assert r[i] in u;
    }
    forall s: Word16 | s < |counts| && counts[s] > 0
      ensures exists i :: 0 <= i < |r| && r[i].sym == s
    {
      assert SymFreq(counts[s], s) in r;
    }
  }

  lemma {:induction false} SameMembers(s: seq<SymFreq>, r: seq<SymFreq>)
    requires multiset(s) == multiset(r)
    ensures forall x :: x in s <==> x in r
  {
    assert forall x :: x in s <==> x in multiset(s);
    assert forall x :: x in r <==> x in multiset(r);
  }

  // ---------------------------------------------------------------- what a code costs

  /** The bits that all occurrences take with these code lengths. */
  ghost function CostOf(counts: seq<nat>, g: seq<nat>): nat
    requires |counts| == |g|
  {
    if counts == [] then 0
    else CostOf(counts[..|counts| - 1], g[..|g| - 1]) + counts[|counts| - 1] * g[|g| - 1]
  }

  ghost predicate SymsBelow(es: seq<SymFreq>, n: nat) {
    forall i | 0 <= i < |es| :: es[i].sym < n
  }

  /** The lengths of the entries' symbols. */
  ghost function Picked(es: seq<SymFreq>, g: seq<nat>): (r: seq<nat>)
    requires SymsBelow(es, |g|)
    ensures |r| == |es| && forall i | 0 <= i < |es| :: r[i] == g[es[i].sym]
  {
    seq(|es|, i requires 0 <= i < |es| => g[es[i].sym])
  }

  ghost function EntryCost(es: seq<SymFreq>, g: seq<nat>): nat
    requires SymsBelow(es, |g|)
  {
    WeightedTotal(Frequencies(es), Picked(es, g))
  }

  ghost function EntryKraft(es: seq<SymFreq>, g: seq<nat>, scale: nat): nat
    requires SymsBelow(es, |g|) && AtMost(g, scale)
  {
    KraftSum(Picked(es, g), scale)
  }

  lemma {:induction false} EntryRemove(es: seq<SymFreq>, i: nat, g: seq<nat>, scale: nat)
    requires i < |es| && SymsBelow(es, |g|) && AtMost(g, scale)
    ensures SymsBelow(RemoveAt(es, i), |g|)
    ensures EntryCost(es, g) == EntryCost(RemoveAt(es, i), g) + es[i].key * g[es[i].sym]
    ensures EntryKraft(es, g, scale) == EntryKraft(RemoveAt(es, i), g, scale) + Pow2(scale - g[es[i].sym])
  {
    hide WeightedTotal, KraftSum, Pow2;
    var rest := RemoveAt(es, i);
    TotalRemoveAt(Frequencies(es), Picked(es, g), i);
    KraftRemoveAt(Picked(es, g), scale, i);
    assert RemoveAt(Frequencies(es), i) == Frequencies(rest);
    assert RemoveAt(Picked(es, g), i) == Picked(rest, g);
  }

  /** The order of the entries does not matter. */
  lemma {:induction false} EntryPermutation(s: seq<SymFreq>, r: seq<SymFreq>, g: seq<nat>, scale: nat)
    requires multiset(s) == multiset(r) && SymsBelow(s, |g|) && SymsBelow(r, |g|) && AtMost(g, scale)
    ensures EntryCost(s, g) == EntryCost(r, g) && EntryKraft(s, g, scale) == EntryKraft(r, g, scale)
    decreases |s|
  {
    hide EntryCost, EntryKraft, Pow2;
    if s == [] {
      assert |multiset(r)| == 0;
    } else {
      assert s[0] in multiset(r);
      var i :| 0 <= i < |r| && r[i] == s[0];
      EntryRemove(r, i, g, scale);
      EntryRemove(s, 0, g, scale);
      MultisetRemoveAt(r, i);
      MultisetRemoveAt(s, 0);
      var s', r' := RemoveAt(s, 0), RemoveAt(r, i);
      assert multiset(s) - multiset{s[0]} == multiset(s');
      assert multiset(r) - multiset{s[0]} == multiset(r');
      EntryPermutation(s', r', g, scale);
    }
  }

  lemma {:induction false} TotalAppend(ws: seq<nat>, ls: seq<nat>, w: nat, l: nat)
    requires |ws| == |ls|
    ensures WeightedTotal(ws + [w], ls + [l]) == WeightedTotal(ws, ls) + w * l
  {
    if ws == [] {
      assert ws + [w] == [w] && ls + [l] == [l] && [w][1..] == [];
    } else {
      TotalAppend(ws[1..], ls[1..], w, l);
      assert (ws + [w])[1..] == ws[1..] + [w] && (ls + [l])[1..] == ls[1..] + [l];
    }
  }

  lemma {:induction false} KraftAppend(z: seq<nat>, v: nat, scale: nat)
    requires AtMost(z, scale) && v <= scale
    ensures AtMost(z + [v], scale) && KraftSum(z + [v], scale) == KraftSum(z, scale) + Pow2(scale - v)
  {
    KraftSumConcat(z, [v], scale);
    assert [v][1..] == [];
  }

  lemma EntryAppend(es: seq<SymFreq>, e: SymFreq, g: seq<nat>, scale: nat)
    requires SymsBelow(es, |g|) && e.sym < |g| && AtMost(g, scale)
    ensures SymsBelow(es + [e], |g|) && EntryCost(es + [e], g) == EntryCost(es, g) + e.key * g[e.sym]
    ensures EntryKraft(es + [e], g, scale) == EntryKraft(es, g, scale) + Pow2(scale - g[e.sym])
  {
    hide WeightedTotal, KraftSum, Pow2;
    assert Frequencies(es + [e]) == Frequencies(es) + [e.key];
    assert Picked(es + [e], g) == Picked(es, g) + [g[e.sym]];
    TotalAppend(Frequencies(es), Picked(es, g), e.key, g[e.sym]);
    KraftAppend(Picked(es, g), g[e.sym], scale);
  }

  /** The used symbols cost as much as all, and take at most as much room. */
  lemma {:induction false} UsedEntriesCost(counts: seq<Word16>, n: nat, g: seq<nat>, scale: nat)
    requires n <= |counts| == |g| <= 0x10000 && AtMost(g, scale)
    ensures SymsBelow(UsedEntries(counts, n), |g|)
    ensures EntryCost(UsedEntries(counts, n), g) == CostOf(counts[..n], g[..n])
    ensures EntryKraft(UsedEntries(counts, n), g, scale) <= KraftSum(g[..n], scale)
  {
    hide EntryCost, EntryKraft, KraftSum, Pow2, CostOf, UsedEntries;
    UsedEntriesMeaning(counts, n);
    if n == 0 {
      NothingPicked(g, scale);
      UsedStep(counts, 0);
      assert counts[..0] == [] && g[..0] == [];
    } else {
      UsedEntriesCost(counts, n - 1, g, scale);
      CostStep(counts, g, n);
      UsedStep(counts, n);
      assert g[..n] == g[..n - 1] + [g[n - 1]];
      KraftAppend(g[..n - 1], g[n - 1], scale);
      if counts[n - 1] != 0 {
        EntryAppend(UsedEntries(counts, n - 1), SymFreq(counts[n - 1], n - 1), g, scale);
      }
    }
  }

  lemma UsedStep(counts: seq<Word16>, n: nat)
    requires n <= |counts| <= 0x10000
    ensures n == 0 ==> UsedEntries(counts, n) == [] && CostOf([], []) == 0
    ensures n > 0 ==>
      UsedEntries(counts, n)
      == if counts[n - 1] != 0 then UsedEntries(counts, n - 1) + [SymFreq(counts[n - 1], n - 1)] else UsedEntries(counts, n - 1)
  {
  }

  lemma CostStep(counts: seq<nat>, g: seq<nat>, n: nat)
    requires 0 < n <= |counts| == |g|
    ensures CostOf(counts[..n], g[..n]) == CostOf(counts[..n - 1], g[..n - 1]) + counts[n - 1] * g[n - 1]
  {
    assert counts[..n][..n - 1] == counts[..n - 1] && g[..n][..n - 1] == g[..n - 1];
  }

  lemma NothingPicked(g: seq<nat>, scale: nat)
    requires AtMost(g, scale)
    ensures EntryCost([], g) == 0 && EntryKraft([], g, scale) == 0
  {
  }

  /** Costs and room of the used symbols in any order. */
  lemma {:induction false} SortedCost(counts: seq<Word16>, r: seq<SymFreq>, g: seq<nat>, scale: nat)
    requires |counts| == |g| <= 0x10000 && AtMost(g, scale)
    requires multiset(r) == multiset(UsedEntries(counts, |counts|))
    ensures SymsBelow(r, |g|) && EntryCost(r, g) == CostOf(counts, g) && EntryKraft(r, g, scale) <= KraftSum(g, scale)
  {
    hide UsedEntries, EntryCost, EntryKraft, KraftSum;
    var u := UsedEntries(counts, |counts|);
    UsedEntriesMeaning(counts, |counts|);
    UsedEntriesCost(counts, |counts|, g, scale);
    SameMembers(u, r);
    assert counts[..|counts|] == counts && g[..|g|] == g;
    forall i | 0 <= i < |r|
      ensures r[i].sym < |g|
    {
      assert r[i] in u;
    }
    EntryPermutation(u, r, g, scale);
  }

  /** Together the sorted symbols occur as often as all do. */
  lemma {:induction false} SortedSum(counts: seq<Word16>, r: seq<SymFreq>)
    requires |counts| <= 0x10000 && multiset(r) == multiset(UsedEntries(counts, |counts|))
    ensures Sum(Frequencies(r)) == Total(counts) && |r| == UsedCount(counts)
  {
    hide UsedEntries, Total, Sum, SumKeys;
    var u := UsedEntries(counts, |counts|);
    UsedEntriesSum(counts, |counts|);
    assert counts[..|counts|] == counts;
    SumKeysIsSum(u);
    SumKeysIsSum(r);
    SumKeysPermutation(u, r);
    assert |multiset(u)| == |u| && |multiset(r)| == |r|;
  }
}
