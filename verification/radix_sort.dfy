/** Symbols with their frequencies, as the Huffman coder keeps them. */
module SymbolFrequency {
  type Word16 = x: int | 0 <= x < 0x10000

  datatype SymFreq = SymFreq(key: Word16, sym: Word16)
}

/** The two-pass radix sort of symbol frequencies by their 16-bit keys. */
module RadixSort {
  import opened SymbolFrequency

  function Digit(key: Word16, shift: nat): (d: nat)
    requires shift > 0
    ensures d < 256
  {
    (key / shift) % 256
  }

  /** The entries of `s` whose digit is `d`, in order. */
  ghost function Select(s: seq<SymFreq>, shift: nat, d: nat): (r: seq<SymFreq>)
    requires shift > 0
    ensures |r| <= |s|
    ensures forall i | 0 <= i < |r| :: Digit(r[i].key, shift) == d
  {
    if s == [] then []
    else
      var last := s[|s| - 1];
      Select(s[..|s| - 1], shift, d) + (if Digit(last.key, shift) == d then [last] else [])
  }

  /** The entries of `s` with key `k`, in order. */
  ghost function WithKey(s: seq<SymFreq>, k: nat): seq<SymFreq> {
    if s == [] then []
    else
      var last := s[|s| - 1];
      WithKey(s[..|s| - 1], k) + (if last.key == k then [last] else [])
  }

  /** The entries of `s` with digit below `n`, grouped by ascending digit, in order within each group. */
  ghost function Bucketed(s: seq<SymFreq>, shift: nat, n: nat): seq<SymFreq>
    requires shift > 0
  {
    if n == 0 then [] else Bucketed(s, shift, n - 1) + Select(s, shift, n - 1)
  }

  /** `r` is sorted by key and keeps entries of equal key in the order of `s`. */
  ghost predicate StableSort(s: seq<SymFreq>, r: seq<SymFreq>) {
    && |r| == |s|
    && (forall i, j | 0 <= i <= j < |r| :: r[i].key <= r[j].key)
    && (forall k: nat :: WithKey(r, k) == WithKey(s, k))
  }

  ghost predicate DigitsAscend(s: seq<SymFreq>, shift: nat)
    requires shift > 0
  {
    forall i, j | 0 <= i <= j < |s| :: Digit(s[i].key, shift) <= Digit(s[j].key, shift)
  }

  // ---------------------------------------------------------------- selections

  lemma {:induction false} SelectAppend(a: seq<SymFreq>, b: seq<SymFreq>, shift: nat, d: nat)
    requires shift > 0
    ensures Select(a + b, shift, d) == Select(a, shift, d) + Select(b, shift, d)
    decreases |b|
  {
    if b == [] {
      assert a + b == a;
    } else {
      var n := |b| - 1;
      SelectAppend(a, b[..n], shift, d);
      assert (a + b)[..|a + b| - 1] == a + b[..n];
    }
  }

  lemma {:induction false} KeyDigits(key: Word16, k: nat)
    ensures key == k <==> k < 0x10000 && Digit(key, 1) == k % 256 && Digit(key, 256) == k / 256
  {
  }

  /** Selecting by both digits, in either order, selects by key. */
  lemma {:induction false} SelectBoth(s: seq<SymFreq>, k: nat)
    requires k < 0x10000
    ensures Select(Select(s, 1, k % 256), 256, k / 256) == WithKey(s, k)
    ensures Select(Select(s, 256, k / 256), 1, k % 256) == WithKey(s, k)
  {
    if s != [] {
      var init, last := s[..|s| - 1], s[|s| - 1];
      SelectBoth(init, k);
      KeyDigits(last.key, k);
      SelectLast(init, last, 1, k % 256, 256, k / 256);
      SelectLast(init, last, 256, k / 256, 1, k % 256);
      assert init + [last] == s;
      hide Digit, Select;
    }
  }

  lemma {:induction false} SelectLast(init: seq<SymFreq>, last: SymFreq, shift: nat, d: nat, other: nat, e: nat)
    requires shift > 0 && other > 0
    ensures Select(Select(init + [last], shift, d), other, e)
         == Select(Select(init, shift, d), other, e)
            + (if Digit(last.key, shift) == d && Digit(last.key, other) == e then [last] else [])
  {
    hide Digit, Select;
    SelectAppend(init, [last], shift, d);
    SelectOne(last, shift, d);
    SelectAppend(Select(init, shift, d), [last], other, e);
    SelectOne(last, other, e);
    assert Select(init, shift, d) + [] == Select(init, shift, d);
  }

  lemma {:induction false} SelectOne(x: SymFreq, shift: nat, d: nat)
    requires shift > 0
    ensures Select([x], shift, d) == if Digit(x.key, shift) == d then [x] else []
  {
    assert [x][..0] == [];
  }

  lemma {:induction false} NoSuchKey(s: seq<SymFreq>, k: nat)
    requires k >= 0x10000
    ensures WithKey(s, k) == []
  {
    if s != [] {
      NoSuchKey(s[..|s| - 1], k);
    }
  }

  /** A selection from a sequence that is ascending in another digit is ascending in it, too. */
  lemma {:induction false} SelectAscends(s: seq<SymFreq>, shift: nat, d: nat, other: nat)
    requires shift > 0 && other > 0 && DigitsAscend(s, other)
    ensures DigitsAscend(Select(s, shift, d), other)
    ensures s != [] ==> forall i | 0 <= i < |Select(s, shift, d)| ::
      Digit(Select(s, shift, d)[i].key, other) <= Digit(s[|s| - 1].key, other)
  {
    if s != [] {
      SelectAscends(s[..|s| - 1], shift, d, other);
    }
  }

  /** Where the entry at `i` comes to lie in the selection of its own digit. */
  ghost function Rank(s: seq<SymFreq>, shift: nat, i: nat): nat
    requires shift > 0 && i < |s|
  {
    |Select(s[..i], shift, Digit(s[i].key, shift))|
  }

  lemma {:induction false} RankFinds(s: seq<SymFreq>, shift: nat, i: nat)
    requires shift > 0 && i < |s|
    ensures var d := Digit(s[i].key, shift);
            && Rank(s, shift, i) < |Select(s, shift, d)| && Select(s, shift, d)[Rank(s, shift, i)] == s[i]
  {
    var d := Digit(s[i].key, shift);
    assert s == s[..i + 1] + s[i + 1..];
    SelectAppend(s[..i + 1], s[i + 1..], shift, d);
    assert s[..i + 1][..i] == s[..i];
  }

  lemma {:induction false} RankMonotone(s: seq<SymFreq>, shift: nat, i: nat, j: nat)
    requires shift > 0 && i <= j < |s| && Digit(s[i].key, shift) == Digit(s[j].key, shift)
    ensures Rank(s, shift, i) <= Rank(s, shift, j)
  {
    assert s[..j] == s[..i] + s[i..j];
    SelectAppend(s[..i], s[i..j], shift, Digit(s[i].key, shift));
  }

  // ---------------------------------------------------------------- one pass

  lemma {:induction false} BucketedSelect(s: seq<SymFreq>, shift: nat, n: nat, d: nat)
    requires shift > 0
    ensures Select(Bucketed(s, shift, n), shift, d) == if d < n then Select(s, shift, d) else []
    ensures forall i | 0 <= i < |Bucketed(s, shift, n)| :: Digit(Bucketed(s, shift, n)[i].key, shift) < n
    ensures DigitsAscend(Bucketed(s, shift, n), shift)
  {
    hide Digit, Select;
    if n > 0 {
      BucketedSelect(s, shift, n - 1, d);
      SelectAppend(Bucketed(s, shift, n - 1), Select(s, shift, n - 1), shift, d);
      SelectSelected(Select(s, shift, n - 1), shift, n - 1, d);
    } else {
      SelectSelected([], shift, 0, d);
    }
  }

  lemma {:induction false} SelectSelected(s: seq<SymFreq>, shift: nat, d: nat, e: nat)
    requires shift > 0 && forall i | 0 <= i < |s| :: Digit(s[i].key, shift) == d
    ensures Select(s, shift, e) == if e == d then s else []
  {
    if s != [] {
      SelectSelected(s[..|s| - 1], shift, d, e);
    }
  }

  /** How many entries have a digit below `n`. */
  ghost function Below(s: seq<SymFreq>, shift: nat, n: nat): nat
    requires shift > 0
  {
    if n == 0 then 0 else Below(s, shift, n - 1) + |Select(s, shift, n - 1)|
  }

  lemma {:induction false} BucketedLength(s: seq<SymFreq>, shift: nat, n: nat)
    requires shift > 0
    ensures |Bucketed(s, shift, n)| == Below(s, shift, n)
  {
    if n > 0 {
      BucketedLength(s, shift, n - 1);
    }
  }

  lemma {:induction false} BelowAppend(s: seq<SymFreq>, x: SymFreq, shift: nat, n: nat)
    requires shift > 0
    ensures Below(s + [x], shift, n) == Below(s, shift, n) + (if Digit(x.key, shift) < n then 1 else 0)
  {
    hide Digit, Select;
    if n > 0 {
      BelowAppend(s, x, shift, n - 1);
      SelectAppend(s, [x], shift, n - 1);
      SelectOne(x, shift, n - 1);
    }
  }

  lemma {:induction false} BelowAll(s: seq<SymFreq>, shift: nat)
    requires shift > 0
    ensures Below(s, shift, 256) == |s|
  {
    if s == [] {
      BelowNone(shift, 256);
    } else {
      BelowAll(s[..|s| - 1], shift);
      BelowAppend(s[..|s| - 1], s[|s| - 1], shift, 256);
      assert s[..|s| - 1] + [s[|s| - 1]] == s;
    }
  }

  lemma {:induction false} BelowNone(shift: nat, n: nat)
    requires shift > 0
    ensures Below([], shift, n) == 0
  {
    if n > 0 {
      BelowNone(shift, n - 1);
    }
  }

  lemma {:induction false} BelowMonotone(s: seq<SymFreq>, shift: nat, a: nat, b: nat)
    requires shift > 0 && a <= b
    ensures Below(s, shift, a) <= Below(s, shift, b)
    ensures a < b ==> Below(s, shift, a) + |Select(s, shift, a)| <= Below(s, shift, b)
  {
    if a < b {
      BelowMonotone(s, shift, a, b - 1);
    }
  }

  /** Two passes, low digit first, give a stable sort. */
  lemma {:induction false} TwoPasses(s: seq<SymFreq>)
    ensures StableSort(s, Bucketed(Bucketed(s, 1, 256), 256, 256))
  {
    var t := Bucketed(s, 1, 256);
    var u := Bucketed(t, 256, 256);
    BucketedLength(s, 1, 256);
    BelowAll(s, 1);
    BucketedLength(t, 256, 256);
    BelowAll(t, 256);
    BucketedSelect(s, 1, 256, 0);
    BucketedSelect(t, 256, 256, 0);
    forall i, j | 0 <= i <= j < |u|
      ensures u[i].key <= u[j].key
    {
      SecondPassOrders(t, i, j);
    }
    forall k: nat
      ensures WithKey(u, k) == WithKey(s, k)
    {
      if k >= 0x10000 {
        NoSuchKey(u, k);
        NoSuchKey(s, k);
      } else {
        SelectBoth(u, k);
        SelectBoth(t, k);
        SelectBoth(s, k);
        BucketedSelect(t, 256, 256, k / 256);
        BucketedSelect(s, 1, 256, k % 256);
      }
    }
  }

  lemma {:induction false} OrderByDigits(a: Word16, b: Word16)
    ensures a <= b <==> Digit(a, 256) < Digit(b, 256) || (Digit(a, 256) == Digit(b, 256) && Digit(a, 1) <= Digit(b, 1))
  {
  }

  lemma {:induction false} SecondPassOrders(t: seq<SymFreq>, i: nat, j: nat)
    requires DigitsAscend(t, 1) && i <= j < |Bucketed(t, 256, 256)|
    ensures Bucketed(t, 256, 256)[i].key <= Bucketed(t, 256, 256)[j].key
  {
    hide Select, Bucketed, Rank, Digit;
    var u := Bucketed(t, 256, 256);
    var h := Digit(u[i].key, 256);
    BucketedSelect(t, 256, 256, h);
    if Digit(u[j].key, 256) == h {
      RankFinds(u, 256, i);
      RankFinds(u, 256, j);
      RankMonotone(u, 256, i, j);
      SelectAscends(t, 256, h, 1);
    }
    OrderByDigits(u[i].key, u[j].key);
  }

  /** With all high digits zero the first pass alone gives a stable sort. */
  lemma {:induction false} OnePass(s: seq<SymFreq>)
    requires forall i | 0 <= i < |s| :: Digit(s[i].key, 256) == 0
    ensures StableSort(s, Bucketed(s, 1, 256))
  {
    var t := Bucketed(s, 1, 256);
    BucketedSelect(s, 1, 256, 0);
    SelectSelected(s, 256, 0, 0);
    forall i | 0 <= i < |t|
      ensures Digit(t[i].key, 256) == 0
    {
      FromSource(s, 1, 256, i);
    }
    SingleBucket(t, 256);
    TwoPasses(s);
  }

  lemma {:induction false} FromSource(s: seq<SymFreq>, shift: nat, n: nat, i: nat)
    requires shift > 0 && i < |Bucketed(s, shift, n)|
    ensures Bucketed(s, shift, n)[i] in s
  {
    if i < |Bucketed(s, shift, n - 1)| {
      FromSource(s, shift, n - 1, i);
    } else {
      SelectedFromSource(s, shift, n - 1, i - |Bucketed(s, shift, n - 1)|);
    }
  }

  lemma {:induction false} SelectedFromSource(s: seq<SymFreq>, shift: nat, d: nat, i: nat)
    requires shift > 0 && i < |Select(s, shift, d)|
    ensures Select(s, shift, d)[i] in s
  {
    if i < |Select(s[..|s| - 1], shift, d)| {
      SelectedFromSource(s[..|s| - 1], shift, d, i);
    }
  }

  lemma {:induction false} SingleBucket(t: seq<SymFreq>, n: nat)
    requires n >= 1 && forall i | 0 <= i < |t| :: Digit(t[i].key, 256) == 0
    ensures Bucketed(t, 256, n) == t
  {
    SelectSelected(t, 256, 0, n - 1);
    if n > 1 {
      SingleBucket(t, n - 1);
    } else {
      assert Bucketed(t, 256, 0) == [];
    }
  }

  // ---------------------------------------------------------------- the sort on arrays

  /** The buckets filled from `done` lie at the places `start` in `dst`. */
  ghost predicate Placed(dst: seq<SymFreq>, src: seq<SymFreq>, shift: nat, done: seq<SymFreq>, d: nat)
    requires shift > 0
  {
    && Below(src, shift, d) + |Select(done, shift, d)| <= |dst|
    && dst[Below(src, shift, d)..Below(src, shift, d) + |Select(done, shift, d)|] == Select(done, shift, d)
  }

  lemma {:induction false} SelectGrows(src: seq<SymFreq>, i: nat, shift: nat, d: nat)
    requires shift > 0 && i <= |src|
    ensures |Select(src[..i], shift, d)| <= |Select(src, shift, d)|
    ensures i < |src| && Digit(src[i].key, shift) == d ==> |Select(src[..i], shift, d)| < |Select(src, shift, d)|
  {
    assert src == src[..i] + src[i..];
    SelectAppend(src[..i], src[i..], shift, d);
    if i < |src| {
      assert src[i..] == [src[i]] + src[i + 1..];
      SelectAppend([src[i]], src[i + 1..], shift, d);
      SelectOne(src[i], shift, d);
    }
  }

  ghost predicate AllBuckets(dst: seq<SymFreq>, src: seq<SymFreq>, shift: nat, done: seq<SymFreq>)
    requires shift > 0
  {
    forall d: nat | d < 256 :: Placed(dst, src, shift, done, d)
  }

  ghost predicate OffsetsOk(offsets: seq<nat>, src: seq<SymFreq>, shift: nat, done: seq<SymFreq>)
    requires shift > 0
  {
    |offsets| == 256 && forall d: nat | d < 256 :: offsets[d] == Below(src, shift, d) + |Select(done, shift, d)|
  }

  /** `hist` holds, from `base` on, how often each digit occurs. */
  ghost predicate Counted(hist: seq<nat>, base: nat, s: seq<SymFreq>, shift: nat)
    requires shift > 0
  {
    base + 256 <= |hist| && forall d: nat | d < 256 :: hist[base + d] == |Select(s, shift, d)|
  }

  lemma {:induction false} CountOne(hist: seq<nat>, base: nat, s: seq<SymFreq>, shift: nat, x: SymFreq)
    requires shift > 0 && Counted(hist, base, s, shift)
    ensures var e := base + Digit(x.key, shift); Counted(hist[e := hist[e] + 1], base, s + [x], shift)
  {
    hide Digit, Select;
    var e := base + Digit(x.key, shift);
    var h := hist[e := hist[e] + 1];
    forall d: nat | d < 256
      ensures h[base + d] == |Select(s + [x], shift, d)|
    {
      SelectAppend(s, [x], shift, d);
      SelectOne(x, shift, d);
    }
  }

  lemma {:induction false} CountElsewhere(hist: seq<nat>, base: nat, s: seq<SymFreq>, shift: nat, i: nat, v: nat)
    requires shift > 0 && Counted(hist, base, s, shift) && i < |hist| && (i < base || i >= base + 256)
    ensures Counted(hist[i := v], base, s, shift)
  {
  }

  /** The next place of bucket `e` is free, and inside no other bucket. */
  lemma {:induction false} FreePlace(src: seq<SymFreq>, shift: nat, i: nat, e: nat, d: nat)
    requires shift > 0 && i < |src| && d < 256 && e == Digit(src[i].key, shift)
    ensures Below(src, shift, e) + |Select(src[..i], shift, e)| < |src|
    ensures d < e ==> Below(src, shift, d) + |Select(src[..i], shift, d)| <= Below(src, shift, e)
    ensures e < d ==> Below(src, shift, e) + |Select(src[..i], shift, e)| < Below(src, shift, d)
  {
    hide Digit, Select, Below;
    SelectGrows(src, i, shift, e);
    SelectGrows(src, i, shift, d);
    BelowMonotone(src, shift, e, 256);
    BelowAll(src, shift);
    if d < e {
      BelowMonotone(src, shift, d, e);
    } else if e < d {
      BelowMonotone(src, shift, e, d);
    }
  }

  lemma {:induction false} SelectNext(src: seq<SymFreq>, shift: nat, i: nat, d: nat)
    requires shift > 0 && i < |src|
    ensures Select(src[..i + 1], shift, d) == Select(src[..i], shift, d) + (if Digit(src[i].key, shift) == d then [src[i]] else [])
  {
    hide Digit, Select;
    SelectAppend(src[..i], [src[i]], shift, d);
    SelectOne(src[i], shift, d);
    assert src[..i + 1] == src[..i] + [src[i]];
  }

  /** Writing the next entry to its bucket extends that bucket and no other. */
  lemma {:induction false} PlaceOne(dst: seq<SymFreq>, src: seq<SymFreq>, shift: nat, i: nat, e: nat, at: nat, d: nat)
    requires shift > 0 && i < |src| == |dst| && d < 256 && e == Digit(src[i].key, shift)
    requires at == Below(src, shift, e) + |Select(src[..i], shift, e)| < |dst|
    requires Placed(dst, src, shift, src[..i], d)
    ensures Placed(dst[at := src[i]], src, shift, src[..i + 1], d)
  {
    hide Digit, Select, Below;
    FreePlace(src, shift, i, e, d);
    SelectNext(src, shift, i, d);
    WriteSlice(dst, at, src[i], Below(src, shift, d), Below(src, shift, d) + |Select(src[..i], shift, d)|);
  }

  lemma {:induction false} WriteSlice<T>(dst: seq<T>, at: nat, x: T, a: nat, b: nat)
    requires at < |dst| && a <= b <= |dst|
    ensures at < a || at >= b ==> dst[at := x][a..b] == dst[a..b]
    ensures at == b ==> dst[at := x][a..b + 1] == dst[a..b] + [x]
  {
  }

  lemma {:induction false} AllPlaced(dst: seq<SymFreq>, src: seq<SymFreq>, shift: nat, n: nat)
    requires shift > 0 && |dst| == |src| && n <= 256
    requires AllBuckets(dst, src, shift, src)
    ensures Below(src, shift, n) <= |dst| && dst[..Below(src, shift, n)] == Bucketed(src, shift, n)
  {
    BelowMonotone(src, shift, n, 256);
    BelowAll(src, shift);
    if n > 0 {
      AllPlaced(dst, src, shift, n - 1);
      assert Placed(dst, src, shift, src, n - 1);
      var a, b := Below(src, shift, n - 1), Below(src, shift, n);
      assert dst[..b] == dst[..a] + dst[a..b];
    }
  }

  /** Distributes the first `n` entries over their buckets by one digit. */
  method Scatter(cur: array<SymFreq>, new': array<SymFreq>, n: nat, hist: array<nat>, base: nat, shift: nat)
    requires shift > 0 && n <= cur.Length && n <= new'.Length && cur != new'
    requires Counted(hist[..], base, cur[..n], shift)
    modifies new'
    ensures new'[..n] == Bucketed(cur[..n], shift, 256)
  {
    hide Digit, Select, Below, Placed, AllBuckets, OffsetsOk, Counted;
    ghost var src := cur[..n];
    var offsets := Offsets(src, hist, base, shift);
    var i := 0;
    StartPlaced(new'[..n], offsets[..], src, shift);
    while i < n
      invariant 0 <= i <= n && cur[..n] == src
      invariant OffsetsOk(offsets[..], src, shift, src[..i])
      invariant AllBuckets(new'[..n], src, shift, src[..i])
    {
      PlaceNext(new', offsets, src, shift, i, n, cur[i]);
      i := i + 1;
    }
    assert src[..n] == src;
    AllPlaced(new'[..n], src, shift, 256);
    BelowAll(src, shift);
    assert new'[..n][..n] == new'[..n];
  }

  lemma {:induction false} StartPlaced(dst: seq<SymFreq>, offsets: seq<nat>, src: seq<SymFreq>, shift: nat)
    requires shift > 0 && |dst| == |src| && |offsets| == 256
    requires forall d: nat | d < 256 :: offsets[d] == Below(src, shift, d)
    ensures AllBuckets(dst, src, shift, src[..0]) && OffsetsOk(offsets, src, shift, src[..0])
  {
    assert src[..0] == [];
    forall d: nat | d < 256
      ensures |Select([], shift, d)| == 0 && Placed(dst, src, shift, [], d)
    {
      BelowMonotone(src, shift, d, 256);
      BelowAll(src, shift);
      SelectNone(shift, d);
    }
  }

  lemma {:induction false} SelectNone(shift: nat, d: nat)
    requires shift > 0
    ensures Select([], shift, d) == []
  {
  }

  lemma {:induction false} PlacedNext(dst: seq<SymFreq>, offsets: seq<nat>, src: seq<SymFreq>, shift: nat, i: nat, e: nat)
    requires shift > 0 && i < |src| == |dst| && e == Digit(src[i].key, shift)
    requires OffsetsOk(offsets, src, shift, src[..i]) && AllBuckets(dst, src, shift, src[..i])
    ensures offsets[e] < |dst|
    ensures OffsetsOk(offsets[e := offsets[e] + 1], src, shift, src[..i + 1])
    ensures AllBuckets(dst[offsets[e] := src[i]], src, shift, src[..i + 1])
  {
    hide Digit, Select, Below, Placed;
    FreePlace(src, shift, i, e, e);
    var at := offsets[e];
    var dst', offsets': seq<nat> := dst[at := src[i]], offsets[e := at + 1];
    var done := src[..i + 1];
    forall d: nat | d < 256
      ensures Placed(dst', src, shift, done, d)
      ensures offsets'[d] == Below(src, shift, d) + |Select(done, shift, d)|
    {
      PlaceOne(dst, src, shift, i, e, at, d);
      SelectNext(src, shift, i, d);
    }
  }

  /** The next free place of an entry's bucket receives it. */
  method PlaceNext(new': array<SymFreq>, offsets: array<nat>, ghost src: seq<SymFreq>, shift: nat, i: nat, n: nat, x: SymFreq)
    requires shift > 0 && i < n == |src| <= new'.Length && x == src[i] && offsets.Length == 256
    requires OffsetsOk(offsets[..], src, shift, src[..i]) && AllBuckets(new'[..n], src, shift, src[..i])
    modifies new', offsets
    ensures OffsetsOk(offsets[..], src, shift, src[..i + 1]) && AllBuckets(new'[..n], src, shift, src[..i + 1])
  {
    hide Digit, Select, Below, OffsetsOk, AllBuckets;
    var e := Digit(x.key, shift);
    ghost var dst, ofs: seq<nat> := new'[..n], offsets[..];
    PlacedNext(dst, ofs, src, shift, i, e);
    new'[offsets[e]] := x;
    assert new'[..n] == dst[ofs[e] := x];
    offsets[e] := offsets[e] + 1;
    assert offsets[..] == ofs[e := ofs[e] + 1];
  }

  method Offsets(ghost src: seq<SymFreq>, hist: array<nat>, base: nat, shift: nat) returns (offsets: array<nat>)
    requires shift > 0 && Counted(hist[..], base, src, shift)
    ensures fresh(offsets) && offsets.Length == 256
    ensures forall d: nat | d < 256 :: offsets[d] == Below(src, shift, d)
  {
    hide Digit, Select;
    offsets := new nat[256];
    var i: nat, curOfs: nat := 0, 0;
    while i < 256
      invariant 0 <= i <= 256 && curOfs == Below(src, shift, i)
      invariant forall d: nat | d < i :: offsets[d] == Below(src, shift, d)
    {
      offsets[i] := curOfs;
      assert hist[..][base + i] == |Select(src, shift, i)|;
      curOfs := curOfs + hist[base + i];
      i := i + 1;
    }
  }

  method Histogram(syms: array<SymFreq>, n: nat) returns (hist: array<nat>)
    requires n <= syms.Length
    ensures fresh(hist) && hist.Length == 512
    ensures Counted(hist[..], 0, syms[..n], 1) && Counted(hist[..], 256, syms[..n], 256)
  {
    hist := new nat[512](_ => 0);
    var i := 0;
    CountedNone(hist[..], 0, 1);
    CountedNone(hist[..], 256, 256);
    assert syms[..0] == [];
    hide Digit, Select, Counted;
    while i < n
      invariant 0 <= i <= n
      invariant Counted(hist[..], 0, syms[..i], 1) && Counted(hist[..], 256, syms[..i], 256)
    {
      var key := syms[i].key;
      assert syms[..i + 1] == syms[..i] + [syms[i]];
      ghost var h := hist[..];
      CountOne(h, 0, syms[..i], 1, syms[i]);
      CountElsewhere(h, 256, syms[..i], 256, Digit(key, 1), h[Digit(key, 1)] + 1);
      hist[Digit(key, 1)] := hist[Digit(key, 1)] + 1;
      ghost var h1 := h[Digit(key, 1) := h[Digit(key, 1)] + 1];
      assert hist[..] == h1;
      var hi := 256 + Digit(key, 256);
      CountOne(h1, 256, syms[..i], 256, syms[i]);
      CountElsewhere(h1, 0, syms[..i + 1], 1, hi, h1[hi] + 1);
      hist[hi] := hist[hi] + 1;
      assert hist[..] == h1[hi := h1[hi] + 1];
      i := i + 1;
    }
  }

  lemma {:induction false} CountedNone(hist: seq<nat>, base: nat, shift: nat)
    requires shift > 0 && base + 256 <= |hist| && forall i | 0 <= i < |hist| :: hist[i] == 0
    ensures Counted(hist, base, [], shift)
  {
  }

  lemma {:induction false} AllSelected(s: seq<SymFreq>, shift: nat, d: nat)
    requires shift > 0 && |Select(s, shift, d)| == |s|
    ensures forall i | 0 <= i < |s| :: Digit(s[i].key, shift) == d
  {
    if s != [] {
      AllSelected(s[..|s| - 1], shift, d);
    }
  }

  /** Sorts the first `n` symbols by key, stably; the sorted ones end up in one of the two arrays. */
  method RadixSortSyms(n: nat, syms0: array<SymFreq>, syms1: array<SymFreq>) returns (sorted: array<SymFreq>)
    requires n <= syms0.Length && n <= syms1.Length && syms0 != syms1
    modifies syms0, syms1
    ensures sorted == syms0 || sorted == syms1
    ensures StableSort(old(syms0[..n]), sorted[..n])
  {
    ghost var s := syms0[..n];
    var hist := Histogram(syms0, n);
    var totalPasses := 2;
    assert hist[..][256 + 0] == |Select(s, 256, 0)|;
    if n == hist[256] {
      totalPasses := 1;
      AllSelected(s, 256, 0);
      OnePass(s);
    }
    Scatter(syms0, syms1, n, hist, 0, 1);
    if totalPasses == 1 {
      return syms1;
    }
    StillCounted(hist[..], s);
    TwoPasses(s);
    Scatter(syms1, syms0, n, hist, 256, 256);
    return syms0;
  }

  lemma {:induction false} StillCounted(hist: seq<nat>, s: seq<SymFreq>)
    requires Counted(hist, 256, s, 256)
    ensures Counted(hist, 256, Bucketed(s, 1, 256), 256)
  {
    hide Select, Bucketed;
    forall d: nat | d < 256
      ensures hist[256 + d] == |Select(Bucketed(s, 1, 256), 256, d)|
    {
      SecondHistogram(s, d);
    }
  }

  /** The counts taken before the first pass still hold after it. */
  lemma {:induction false} SecondHistogram(s: seq<SymFreq>, d: nat)
    ensures |Select(Bucketed(s, 1, 256), 256, d)| == |Select(s, 256, d)|
  {
    CountOverBuckets(s, d, 256);
    BelowInSelection(s, d, 256);
    BelowAll(Select(s, 256, d), 1);
  }

  lemma {:induction false} CountOverBuckets(s: seq<SymFreq>, d: nat, n: nat)
    ensures |Select(Bucketed(s, 1, n), 256, d)| == CountBoth(s, d, n)
  {
    if n == 0 {
      SelectNone(256, d);
    } else {
      CountOverBuckets(s, d, n - 1);
      SelectAppend(Bucketed(s, 1, n - 1), Select(s, 1, n - 1), 256, d);
    }
  }

  ghost function CountBoth(s: seq<SymFreq>, d: nat, n: nat): nat {
    if n == 0 then 0 else CountBoth(s, d, n - 1) + |Select(Select(s, 1, n - 1), 256, d)|
  }

  lemma {:induction false} BelowInSelection(s: seq<SymFreq>, d: nat, n: nat)
    ensures CountBoth(s, d, n) == Below(Select(s, 256, d), 1, n)
  {
    hide Select;
    if n > 0 {
      BelowInSelection(s, d, n - 1);
      SelectsCommute(s, 1, n - 1, 256, d);
    }
  }

  lemma {:induction false} SelectsCommute(s: seq<SymFreq>, shift: nat, d: nat, other: nat, e: nat)
    requires shift > 0 && other > 0
    ensures Select(Select(s, shift, d), other, e) == Select(Select(s, other, e), shift, d)
  {
    if s == [] {
      SelectNone(shift, d);
      SelectNone(other, e);
    } else {
      var init, last := s[..|s| - 1], s[|s| - 1];
      SelectsCommute(init, shift, d, other, e);
      SelectLast(init, last, shift, d, other, e);
      SelectLast(init, last, other, e, shift, d);
      assert init + [last] == s;
    }
  }
}
