/** The sorted index over the file names of an archive, and the two ways of finding a name. */
module ZipIndex {
  import opened ByteValues

  type Name = seq<Byte>

  // ---------------------------------------------------------------- the order of names

  function ToLower(c: Byte): Byte {
    if 65 <= c <= 90 then c - 65 + 97 else c
  }

  function Fold(name: Name): (r: Name)
    ensures |r| == |name| && forall i | 0 <= i < |r| :: r[i] == ToLower(name[i])
  {
    seq(|name|, i requires 0 <= i < |name| => ToLower(name[i]))
  }

  /** Dictionary order of byte strings, a shorter string before its continuations. */
  predicate Before(a: Name, b: Name) {
    b != [] && (a == [] || a[0] < b[0] || (a[0] == b[0] && Before(a[1..], b[1..])))
  }

  lemma {:induction false} BeforeIsTotal(a: Name, b: Name)
    ensures Before(a, b) || a == b || Before(b, a)
    ensures !(Before(a, b) && Before(b, a)) && !Before(a, a)
  {
    if a != [] && b != [] {
      BeforeIsTotal(a[1..], b[1..]);
      assert a == [a[0]] + a[1..] && b == [b[0]] + b[1..];
    }
    NotBeforeItself(a);
  }

  lemma {:induction false} NotBeforeItself(a: Name)
    ensures !Before(a, a)
  {
    if a != [] {
      NotBeforeItself(a[1..]);
    }
  }

  lemma {:induction false} BeforeIsTransitive(a: Name, b: Name, c: Name)
    requires Before(a, b) && Before(b, c)
    ensures Before(a, c)
  {
    if a != [] && a[0] == b[0] == c[0] {
      BeforeIsTransitive(a[1..], b[1..], c[1..]);
    }
  }

  /** The order is decided where two strings first differ. */
  lemma {:induction false} DecidedAt(a: Name, b: Name, k: nat)
    requires k <= |a| && k <= |b| && a[..k] == b[..k]
    requires k == |a| || k == |b| || a[k] != b[k]
    ensures Before(a, b) <==> if k < |a| && k < |b| then a[k] < b[k] else |a| < |b|
    ensures a == b <==> k == |a| == |b|
    decreases k
  {
    if k > 0 {
      assert a[0] == a[..k][0] == b[..k][0] == b[0];
      assert a[1..][..k - 1] == a[..k][1..] == b[..k][1..] == b[1..][..k - 1];
      DecidedAt(a[1..], b[1..], k - 1);
      assert a == [a[0]] + a[1..] && b == [b[0]] + b[1..];
    }
  }

  /** Not after: equal names up to case, or in order. */
  ghost predicate NotAfter(names: seq<Name>, l: nat, r: nat) {
    l < |names| && r < |names| && !Before(Fold(names[r]), Fold(names[l]))
  }

  lemma NotAfterTransitive(names: seq<Name>, a: nat, b: nat, c: nat)
    requires NotAfter(names, a, b) && NotAfter(names, b, c)
    ensures NotAfter(names, a, c)
  {
    var x, y, z := Fold(names[a]), Fold(names[b]), Fold(names[c]);
    BeforeIsTotal(x, y);
    BeforeIsTotal(y, z);
    if Before(z, x) {
      if Before(x, y) {
        BeforeIsTransitive(z, x, y);
      }
    }
  }

  lemma NotAfterTotal(names: seq<Name>, a: nat, b: nat)
    requires a < |names| && b < |names|
    ensures NotAfter(names, a, b) || NotAfter(names, b, a)
    ensures NotAfter(names, a, a)
  {
    BeforeIsTotal(Fold(names[a]), Fold(names[b]));
    NotBeforeItself(Fold(names[a]));
  }

  /** Compares two names of the directory byte by byte. */
  method FilenameLess(names: seq<Name>, l: nat, r: nat) returns (less: bool)
    requires l < |names| && r < |names|
    ensures less <==> !NotAfter(names, r, l)
  {
    hide Before;
    var a, b := names[l], names[r];
    var end := if |a| < |b| then |a| else |b|;
    var k := 0;
    while k < end && ToLower(a[k]) == ToLower(b[k])
      invariant 0 <= k <= end && Fold(a)[..k] == Fold(b)[..k]
    {
      assert Fold(a)[..k + 1] == Fold(a)[..k] + [ToLower(a[k])];
      assert Fold(b)[..k + 1] == Fold(b)[..k] + [ToLower(b[k])];
      k := k + 1;
    }
    DecidedAt(Fold(a), Fold(b), k);
    less := if k == end then |a| < |b| else ToLower(a[k]) < ToLower(b[k]);
  }

  // ---------------------------------------------------------------- the heap

  predicate Child(i: nat, c: nat) {
    c == 2 * i + 1 || c == 2 * i + 2
  }

  ghost predicate AllNamed(names: seq<Name>, s: seq<nat>) {
    forall i | 0 <= i < |s| :: s[i] < |names|
  }

  /** No node from `lo` on is before one of its children below `hi`; the node `hole` is not looked at. */
  ghost predicate Heap(names: seq<Name>, s: seq<nat>, lo: nat, hi: nat, hole: int) {
    hi <= |s| && forall i: nat, c: nat | Child(i, c) && lo <= i && c < hi && i != hole :: NotAfter(names, s[c], s[i])
  }

  /** The node above the hole is not before the nodes below it. */
  ghost predicate Bridged(names: seq<Name>, s: seq<nat>, lo: nat, hi: nat, hole: nat) {
    hi <= |s| && forall p: nat, c: nat | Child(p, hole) && Child(hole, c) && lo <= p && c < hi :: NotAfter(names, s[c], s[p])
  }

  /** Everything from `hi` on is in order, and nothing below `hi` is after any of it. */
  ghost predicate Settled(names: seq<Name>, s: seq<nat>, hi: nat) {
    forall i: nat, j: nat | i < j < |s| && hi <= j :: NotAfter(names, s[i], s[j])
  }

  ghost function Swapped(s: seq<nat>, i: nat, j: nat): (r: seq<nat>)
    requires i < |s| && j < |s|
    ensures |r| == |s| && multiset(r) == multiset(s)
  {
    s[i := s[j]][j := s[i]]
  }

  lemma SwapKeepsSettled(names: seq<Name>, s: seq<nat>, hi: nat, i: nat, j: nat)
    requires Settled(names, s, hi) && i < hi <= |s| && j < hi
    ensures Settled(names, Swapped(s, i, j), hi)
  {
    hide NotAfter;
    var t := Swapped(s, i, j);
    forall a: nat, b: nat | a < b < |t| && hi <= b
      ensures NotAfter(names, t[a], t[b])
    {
      var from := if a == i then j else if a == j then i else a;
      assert t[a] == s[from] && t[b] == s[b];
    }
  }

  /** The larger child moves up into the hole, and the hole takes its place. */
  lemma SiftStep(names: seq<Name>, s: seq<nat>, lo: nat, hi: nat, root: nat, child: nat)
    requires hi <= |s| && AllNamed(names, s) && lo <= root && Child(root, child) && child < hi
    requires Heap(names, s, lo, hi, root) && Bridged(names, s, lo, hi, root)
    requires forall c: nat | Child(root, c) && c < hi :: NotAfter(names, s[c], s[child])
    requires NotAfter(names, s[root], s[child])
    ensures
      var t := Swapped(s, root, child);
      AllNamed(names, t) && Heap(names, t, lo, hi, child) && Bridged(names, t, lo, hi, child)
  {
    hide NotAfter;
    var t := Swapped(s, root, child);
    forall i: nat, c: nat | Child(i, c) && lo <= i && c < hi && i != child
      ensures NotAfter(names, t[c], t[i])
    {
      if i == root {
        assert t[i] == s[child];
        if c != child {
          assert t[c] == s[c];
        }
      } else {
        assert c != child && t[i] == s[i];
        if c == root {
          assert Child(root, child);
        }
      }
    }
    forall p: nat, c: nat | Child(p, child) && Child(child, c) && lo <= p && c < hi
      ensures NotAfter(names, t[c], t[p])
    {
      assert p == root && t[c] == s[c];
    }
  }

  lemma HoleClosed(names: seq<Name>, s: seq<nat>, lo: nat, hi: nat, root: nat)
    requires Heap(names, s, lo, hi, root)
    requires forall c: nat | Child(root, c) && c < hi :: NotAfter(names, s[c], s[root])
    ensures Heap(names, s, lo, hi, -1)
  {
    hide NotAfter;
  }

  /** Sinks the node `root` below `hi` until no child is after it. */
  method SiftDown(names: seq<Name>, a: array<nat>, start: nat, hi: nat)
    requires start < hi <= a.Length && AllNamed(names, a[..]) && Settled(names, a[..], hi)
    requires Heap(names, a[..], start, hi, start)
    modifies a
    ensures AllNamed(names, a[..]) && Settled(names, a[..], hi) && Heap(names, a[..], start, hi, -1)
    ensures multiset(a[..]) == multiset(old(a[..]))
  {
    hide NotAfter, Heap, Bridged, Settled, AllNamed;
    var root := start;
    NoBridge(names, a[..], start, hi);
    while true
      invariant start <= root < hi && multiset(a[..]) == multiset(old(a[..]))
      invariant AllNamed(names, a[..]) && Settled(names, a[..], hi)
      invariant Heap(names, a[..], start, hi, root) && Bridged(names, a[..], start, hi, root)
      decreases hi - root
    {
      var child, sunk := LargerChild(names, a, root, hi);
      if sunk {
        HoleClosed(names, a[..], start, hi, root);
        break;
      }
      ghost var before := a[..];
      SiftStep(names, a[..], start, hi, root, child);
      SwapKeepsSettled(names, a[..], hi, root, child);
      a[root], a[child] := a[child], a[root];
      assert a[..] == Swapped(before, root, child);
      root := child;
    }
  }

  lemma NoBridge(names: seq<Name>, s: seq<nat>, lo: nat, hi: nat)
    requires hi <= |s|
    ensures Bridged(names, s, lo, hi, lo)
  {
  }

  /** The child that goes up, unless there is none or none is after the root. */
  method LargerChild(names: seq<Name>, a: array<nat>, root: nat, hi: nat) returns (child: nat, sunk: bool)
    requires root < hi <= a.Length && AllNamed(names, a[..])
    ensures sunk ==> forall c: nat | Child(root, c) && c < hi :: NotAfter(names, a[c], a[root])
    ensures !sunk ==> child < hi && Child(root, child) && NotAfter(names, a[root], a[child])
    ensures !sunk ==> forall c: nat | Child(root, c) && c < hi :: NotAfter(names, a[c], a[child])
  {
    hide NotAfter;
    child := 2 * root + 1;
    if child >= hi {
      return child, true;
    }
    assert a[child] < |names| && a[root] < |names|;
    NotAfterTotal(names, a[child], a[root]);
    if child + 1 < hi {
      assert a[child + 1] < |names|;
      NotAfterTotal(names, a[child], a[child + 1]);
      NotAfterTotal(names, a[child + 1], a[root]);
      var less := FilenameLess(names, a[child], a[child + 1]);
      if less {
        child := child + 1;
      }
    }
    var goesUp := FilenameLess(names, a[root], a[child]);
    sunk := !goesUp;
    if sunk && child + 1 < hi && child == 2 * root + 1 {
      NotAfterTransitive(names, a[child + 1], a[child], a[root]);
    }
    if sunk && child == 2 * root + 2 {
      NotAfterTransitive(names, a[child - 1], a[child], a[root]);
    }
  }

  lemma LeavesAreHeaps(names: seq<Name>, s: seq<nat>, lo: nat)
    requires |s| <= 2 * lo + 1
    ensures Heap(names, s, lo, |s|, -1)
  {
  }

  lemma OneMoreNode(names: seq<Name>, s: seq<nat>, lo: nat, hi: nat)
    requires Heap(names, s, lo + 1, hi, -1)
    ensures Heap(names, s, lo, hi, lo)
  {
    hide NotAfter;
  }

  /** Nothing in a heap is after its top. */
  lemma {:induction false} TopIsLast(names: seq<Name>, s: seq<nat>, hi: nat, i: nat)
    requires i < hi && Heap(names, s, 0, hi, -1) && AllNamed(names, s)
    ensures NotAfter(names, s[i], s[0])
  {
    hide NotAfter;
    if i == 0 {
      NotAfterTotal(names, s[0], s[0]);
    } else {
      var parent := (i - 1) / 2;
      assert Child(parent, i);
      TopIsLast(names, s, hi, parent);
      NotAfterTransitive(names, s[i], s[parent], s[0]);
    }
  }

  /** Exchanging the top with the last node of the heap settles one more place. */
  lemma TopMovesBack(names: seq<Name>, s: seq<nat>, end: nat)
    requires 0 < end < |s| && AllNamed(names, s)
    requires Heap(names, s, 0, end + 1, -1) && Settled(names, s, end + 1)
    ensures
      var t := Swapped(s, end, 0);
      AllNamed(names, t) && Settled(names, t, end) && Heap(names, t, 0, end, 0)
  {
    hide NotAfter;
    var t := Swapped(s, end, 0);
    SwapKeepsSettled(names, s, end + 1, end, 0);
    forall i: nat, j: nat | i < j < |t| && end <= j
      ensures NotAfter(names, t[i], t[j])
    {
      if j == end {
        assert t[i] == if i == 0 then s[end] else s[i];
        TopIsLast(names, s, end + 1, if i == 0 then end else i);
      }
    }
  }

  ghost predicate Sorted(names: seq<Name>, s: seq<nat>) {
    forall i: nat, j: nat | i < j < |s| :: NotAfter(names, s[i], s[j])
  }

  /** Sorts the indices in place: a heap is built from the leaves up, and its top is moved behind it again and again. */
  method SortByFilename(names: seq<Name>, indices: array<nat>)
    requires AllNamed(names, indices[..])
    modifies indices
    ensures Sorted(names, indices[..]) && multiset(indices[..]) == multiset(old(indices[..]))
  {
    hide NotAfter, Heap, Settled, AllNamed, Sorted;
    var size := indices.Length;
    if size <= 1 {
      FewAreSorted(names, indices[..]);
      return;
    }
    var start: nat := (size - 2) / 2;
    LeavesAreHeaps(names, indices[..], start + 1);
    NothingSettled(names, indices[..]);
    while true
      invariant start <= (size - 2) / 2 && multiset(indices[..]) == multiset(old(indices[..]))
      invariant AllNamed(names, indices[..]) && Settled(names, indices[..], size)
      invariant Heap(names, indices[..], start + 1, size, -1)
      decreases start
    {
      OneMoreNode(names, indices[..], start, size);
      SiftDown(names, indices, start, size);
      if start == 0 {
        break;
      }
      start := start - 1;
    }
    var end: nat := size - 1;
    while end > 0
      invariant end < size && multiset(indices[..]) == multiset(old(indices[..]))
      invariant AllNamed(names, indices[..]) && Settled(names, indices[..], end + 1)
      invariant Heap(names, indices[..], 0, end + 1, -1)
    {
      ghost var before := indices[..];
      TopMovesBack(names, indices[..], end);
      indices[end], indices[0] := indices[0], indices[end];
      assert indices[..] == Swapped(before, end, 0);
      SiftDown(names, indices, 0, end);
      end := end - 1;
    }
    SettledIsSorted(names, indices[..]);
  }

  lemma FewAreSorted(names: seq<Name>, s: seq<nat>)
    requires |s| <= 1
    ensures Sorted(names, s)
  {
  }

  lemma NothingSettled(names: seq<Name>, s: seq<nat>)
    ensures Settled(names, s, |s|)
  {
  }

  lemma SettledIsSorted(names: seq<Name>, s: seq<nat>)
    requires Settled(names, s, 1)
    ensures Sorted(names, s)
  {
    hide NotAfter;
  }

  // ---------------------------------------------------------------- looking a name up

  datatype Found = Index(file: nat) | FileNotFound | InvalidParameter

  predicate Matches(names: seq<Name>, f: nat, name: Name) {
    f < |names| && Fold(names[f]) == Fold(name)
  }

  /** The fields of a directory header hold lengths of 16 bits. */
  ghost predicate Directory(names: seq<Name>) {
    forall f | 0 <= f < |names| :: |names[f]| <= 0xFFFF
  }

  /** The index holds every file of the directory once, in order. */
  ghost predicate IndexOf(names: seq<Name>, s: seq<nat>) {
    && Sorted(names, s) && |s| == |names| && AllNamed(names, s)
    && forall f: nat | f < |names| :: f in s
  }

  /** The directory's own numbering, sorted, is an index. */
  method BuildIndex(names: seq<Name>) returns (indices: array<nat>)
    ensures fresh(indices) && IndexOf(names, indices[..])
  {
    hide Sorted;
    indices := new nat[|names|](i => i);
    ghost var plain := indices[..];
    SortByFilename(names, indices);
    SamePlaces(names, plain, indices[..]);
  }

  lemma SamePlaces(names: seq<Name>, plain: seq<nat>, s: seq<nat>)
    requires multiset(plain) == multiset(s)
    requires |plain| == |names| && forall i | 0 <= i < |plain| :: plain[i] == i
    ensures |s| == |names| && AllNamed(names, s) && forall f: nat | f < |names| :: f in s
  {
    assert |multiset(s)| == |multiset(plain)|;
    forall i | 0 <= i < |s|
      ensures s[i] < |names|
    {
      assert s[i] in multiset(s);
      assert s[i] in plain;
    }
    forall f: nat | f < |names|
      ensures f in s
    {
      assert plain[f] in multiset(plain);
    }
  }

  /** Negative, zero or positive; lengths are subtracted as 32-bit numbers. */
  method FilenameCompare(names: seq<Name>, l: nat, name: Name) returns (comp: int)
    requires Directory(names) && l < |names| && |name| < 0x1_0000_0000
    ensures comp == 0 <==> Matches(names, l, name)
    ensures |name| <= 0xFFFF ==> (comp < 0 <==> Before(Fold(names[l]), Fold(name)))
  {
    hide Before;
    var a, b := names[l], name;
    var end := if |a| < |b| then |a| else |b|;
    var k := 0;
    while k < end && ToLower(a[k]) == ToLower(b[k])
      invariant 0 <= k <= end && Fold(a)[..k] == Fold(b)[..k]
    {
      assert Fold(a)[..k + 1] == Fold(a)[..k] + [ToLower(a[k])];
      assert Fold(b)[..k + 1] == Fold(b)[..k] + [ToLower(b[k])];
      k := k + 1;
    }
    DecidedAt(Fold(a), Fold(b), k);
    if k == end {
      var difference := (|a| - |b|) % 0x1_0000_0000;
      comp := if difference < 0x8000_0000 then difference else difference - 0x1_0000_0000;
    } else {
      comp := ToLower(a[k]) as int - ToLower(b[k]) as int;
    }
  }

  /** The binary search finds some file with the name up to case, and fails only if there is none. */
  method LocateByBinarySearch(names: seq<Name>, s: seq<nat>, name: Name) returns (found: Found)
    requires Directory(names) && IndexOf(names, s) && |name| < 0x1_0000_0000
    ensures found.Index? ==> Matches(names, found.file, name)
    ensures !found.Index? ==> found.FileNotFound? && forall f: nat :: !Matches(names, f, name)
  {
    hide Matches, Before;
    var l: int, h: int := 0, |s| - 1;
    while l <= h
      invariant 0 <= l <= |s| && -1 <= h < |s|
      invariant forall i | 0 <= i < |s| && (i < l || h < i) :: !Matches(names, s[i], name)
    {
      var m := l + (h - l) / 2;
      var file := s[m];
      var comp := FilenameCompare(names, file, name);
      if comp == 0 {
        return Index(file);
      }
      if |name| > 0xFFFF {
        TooLong(names, name);
      }
      if comp < 0 {
        AllBefore(names, s, name, m);
        l := m + 1;
      } else {
        AllBehind(names, s, name, m);
        h := m - 1;
      }
    }
    found := FileNotFound;
    NotListed(names, s, name);
  }

  lemma TooLong(names: seq<Name>, name: Name)
    requires Directory(names) && |name| > 0xFFFF
    ensures forall f: nat :: !Matches(names, f, name)
  {
  }

  lemma NotListed(names: seq<Name>, s: seq<nat>, name: Name)
    requires IndexOf(names, s) && forall i | 0 <= i < |s| :: !Matches(names, s[i], name)
    ensures forall f: nat :: !Matches(names, f, name)
  {
    hide Sorted, AllNamed;
    forall f: nat
      ensures !Matches(names, f, name)
    {
      if f < |names| {
        assert f in s;
      }
    }
  }

  /** Nothing up to a place whose name is before the wanted one matches. */
  lemma AllBefore(names: seq<Name>, s: seq<nat>, name: Name, m: nat)
    requires IndexOf(names, s) && m < |s| && !Matches(names, s[m], name)
    requires Before(Fold(names[s[m]]), Fold(name)) || forall f: nat :: !Matches(names, f, name)
    ensures forall i | 0 <= i <= m :: !Matches(names, s[i], name)
  {
    forall i | 0 <= i < m
      ensures !Matches(names, s[i], name)
    {
      assert NotAfter(names, s[i], s[m]);
    }
  }

  lemma AllBehind(names: seq<Name>, s: seq<nat>, name: Name, m: nat)
    requires IndexOf(names, s) && m < |s| && !Matches(names, s[m], name)
    requires !Before(Fold(names[s[m]]), Fold(name)) || forall f: nat :: !Matches(names, f, name)
    ensures forall i | m <= i < |s| :: !Matches(names, s[i], name)
  {
    BeforeIsTotal(Fold(names[s[m]]), Fold(name));
    forall i | m < i < |s|
      ensures !Matches(names, s[i], name)
    {
      assert NotAfter(names, s[m], s[i]);
    }
  }

  /** The scan of the whole directory finds the first file with the name up to case. */
  method LocateByScan(names: seq<Name>, name: Name) returns (found: Found)
    requires Directory(names)
    ensures found.InvalidParameter? <==> |name| > 0xFFFF
    ensures found.Index? ==> Matches(names, found.file, name) && forall f: nat | f < found.file :: !Matches(names, f, name)
    ensures !found.Index? ==> forall f: nat :: !Matches(names, f, name)
  {
    hide Fold;
    if |name| > 0xFFFF {
      TooLong(names, name);
      return InvalidParameter;
    }
    var file := 0;
    while file < |names|
      invariant 0 <= file <= |names|
      invariant forall f: nat | f < file :: !Matches(names, f, name)
    {
      var filename := names[file];
      if |filename| == |name| {
        var same := StringEqual(name, filename);
        if same {
          return Index(file);
        }
      }
      file := file + 1;
    }
    found := FileNotFound;
  }

  method StringEqual(a: Name, b: Name) returns (same: bool)
    requires |a| == |b|
    ensures same <==> Fold(a) == Fold(b)
  {
    var i := 0;
    while i < |a|
      invariant 0 <= i <= |a| && forall k | 0 <= k < i :: Fold(a)[k] == Fold(b)[k]
    {
      if ToLower(a[i]) != ToLower(b[i]) {
        assert Fold(a)[i] != Fold(b)[i];
        return false;
      }
      i := i + 1;
    }
    same := true;
  }

  ghost predicate DistinctNames(names: seq<Name>) {
    forall f: nat, g: nat | f < |names| && g < |names| && Fold(names[f]) == Fold(names[g]) :: f == g
  }

  /** Both ways find a file or neither does, and the same file if no two names differ only in case. */
  method BothWays(names: seq<Name>, name: Name) returns (fast: Found, slow: Found)
    requires Directory(names) && |name| < 0x1_0000_0000
    ensures fast.Index? <==> slow.Index?
    ensures DistinctNames(names) && fast.Index? ==> fast == slow
  {
    hide Fold, IndexOf;
    var indices := BuildIndex(names);
    fast := LocateByBinarySearch(names, indices[..], name);
    slow := LocateByScan(names, name);
  }

  // ---------------------------------------------------------------- names as text

  function CodesOf(text: string): (name: Name)
    requires forall i | 0 <= i < |text| :: text[i] < 256 as char
    ensures |name| == |text| && forall i | 0 <= i < |text| :: name[i] == text[i] as int
  {
    seq(|text|, i requires 0 <= i < |text| => text[i] as int)
  }

  /** Two bytes are the same up to case exactly if they are equal or a capital and a small letter of the alphabet. */
  lemma SameUpToCase(c: Byte, d: Byte)
    ensures ToLower(c) == ToLower(d) <==>
              || c == d
              || ('A' <= c as char <= 'Z' && d == c + ('a' as int - 'A' as int))
              || ('A' <= d as char <= 'Z' && c == d + ('a' as int - 'A' as int))
  {
  }

  /** The ends of the alphabet and what stands beside them; a small letter comes behind the underscore. */
  lemma {:induction false} FoldedText()
    ensures Fold(CodesOf("@AMZ[_`amz{")) == CodesOf("@amz[_`amz{")
    ensures Before(Fold(CodesOf("_")), Fold(CodesOf("A"))) && !Before(Fold(CodesOf("Readme")), Fold(CodesOf("README")))
  {
    assert Fold(CodesOf("Readme")) == Fold(CodesOf("README"));
    NotBeforeItself(Fold(CodesOf("README")));
  }
}
