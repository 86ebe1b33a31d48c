/** Byte-pair decompression: a machine with a stack of second halves, and the grammar it expands. */
module BytePair {
  import opened ByteValues
  import opened Powers

  /** A byte that stands for two others. */
  datatype Pair = Pair(code: Byte, left: Byte, right: Byte)

  /** What each paired byte stands for; a later pair for the same byte replaces an earlier one. */
  type Grammar = map<Byte, (Byte, Byte)>

  function GrammarOf(pairs: seq<Pair>): Grammar {
    if pairs == [] then map[]
    else var p := pairs[|pairs| - 1]; GrammarOf(pairs[..|pairs| - 1])[p.code := (p.left, p.right)]
  }

  /** A byte that is not expanded: one without a pair, or paired with itself first. */
  predicate Plain(g: Grammar, b: Byte) {
    b in g ==> g[b].0 == b
  }

  /** The expansion of a pair only leads to bytes of lower rank, and never to an escape marker without a pair. */
  ghost predicate Acyclic(g: Grammar, marker: int, rank: seq<nat>) {
    && |rank| == 256
    && forall b: Byte | b in g && g[b].0 != b :: LeadsDown(g, marker, rank, b, g[b].0) && LeadsDown(g, marker, rank, b, g[b].1)
  }

  ghost predicate LeadsDown(g: Grammar, marker: int, rank: seq<nat>, b: Byte, child: Byte)
    requires |rank| == 256
  {
    rank[child] < rank[b] && (child != marker || child in g)
  }

  /** The bytes that a byte finally stands for. */
  ghost function Expand(g: Grammar, marker: int, rank: seq<nat>, b: Byte): (s: seq<Byte>)
    requires Acyclic(g, marker, rank)
    ensures s != []
    decreases rank[b]
  {
    if Plain(g, b) then [b]
    else
      assert LeadsDown(g, marker, rank, b, g[b].0) && LeadsDown(g, marker, rank, b, g[b].1);
      Expand(g, marker, rank, g[b].0) + Expand(g, marker, rank, g[b].1)
  }

  /** The number of bytes, intermediate ones included, in an expansion. */
  ghost function Nodes(g: Grammar, marker: int, rank: seq<nat>, b: Byte): nat
    requires Acyclic(g, marker, rank)
    decreases rank[b]
  {
    if Plain(g, b) then 1
    else
      assert LeadsDown(g, marker, rank, b, g[b].0) && LeadsDown(g, marker, rank, b, g[b].1);
      1 + Nodes(g, marker, rank, g[b].0) + Nodes(g, marker, rank, g[b].1)
  }

  /** A byte that takes the next one literally. */
  predicate Escapes(g: Grammar, marker: int, b: Byte) {
    b == marker && (b in g ==> g[b].0 != b)
  }

  /** No escape marker stands at the end. */
  ghost predicate Complete(g: Grammar, marker: int, data: seq<Byte>) {
    data == [] || (if Escapes(g, marker, data[0]) then |data| >= 2 && Complete(g, marker, data[2..]) else Complete(g, marker, data[1..]))
  }

  /** What the data stand for. */
  ghost function Decoded(g: Grammar, marker: int, rank: seq<nat>, data: seq<Byte>): seq<Byte>
    requires Acyclic(g, marker, rank) && Complete(g, marker, data)
  {
    if data == [] then []
    else if Escapes(g, marker, data[0]) then [data[1]] + Decoded(g, marker, rank, data[2..])
    else Expand(g, marker, rank, data[0]) + Decoded(g, marker, rank, data[1..])
  }

  /** Where the data go on after their first byte, and the byte it escapes. */
  function After(g: Grammar, marker: int, data: seq<Byte>): nat
    requires data != []
  {
    if Escapes(g, marker, data[0]) then 2 else 1
  }

  /** What the first byte of the data, with the one it escapes, stands for. */
  ghost function First(g: Grammar, marker: int, rank: seq<nat>, data: seq<Byte>): (s: seq<Byte>)
    requires Acyclic(g, marker, rank) && Complete(g, marker, data) && data != []
    ensures s != []
  {
    if Escapes(g, marker, data[0]) then [data[1]] else Expand(g, marker, rank, data[0])
  }

  /** What fills the room: whole expansions, as long as there is room before one of them, and at least the first. */
  ghost function Filling(g: Grammar, marker: int, rank: seq<nat>, data: seq<Byte>, room: int): seq<Byte>
    requires Acyclic(g, marker, rank) && Complete(g, marker, data)
  {
    if data == [] then []
    else
      var first := First(g, marker, rank, data);
      first + if |first| >= room then [] else Filling(g, marker, rank, data[After(g, marker, data)..], room - |first|)
  }

  /** With enough room that is everything. */
  lemma {:induction false} FillingIsAll(g: Grammar, marker: int, rank: seq<nat>, data: seq<Byte>, room: int)
    requires Acyclic(g, marker, rank) && Complete(g, marker, data)
    ensures Filling(g, marker, rank, data, room) <= Decoded(g, marker, rank, data)
    ensures |Filling(g, marker, rank, data, room)| >= room || Filling(g, marker, rank, data, room) == Decoded(g, marker, rank, data)
    ensures |Decoded(g, marker, rank, data)| <= room ==> Filling(g, marker, rank, data, room) == Decoded(g, marker, rank, data)
    decreases |data|
  {
    hide Acyclic, Expand;
    if data != [] {
      var rest := data[After(g, marker, data)..];
      DecodedFirst(g, marker, rank, data);
      FillingIsAll(g, marker, rank, rest, room - |First(g, marker, rank, data)|);
      NothingDecoded(g, marker, rank, rest);
    }
  }

  /** Some byte of the data starts inside the room and its expansion ends behind it. */
  ghost predicate Straddles(g: Grammar, marker: int, rank: seq<nat>, data: seq<Byte>, room: int)
    requires Acyclic(g, marker, rank) && Complete(g, marker, data)
  {
    data != [] &&
    var size := |First(g, marker, rank, data)|;
    size > room || (size < room && Straddles(g, marker, rank, data[After(g, marker, data)..], room - size))
  }

  /** The output stays inside the room if and only if no expansion straddles its end. */
  lemma {:induction false} OutsideExactly(g: Grammar, marker: int, rank: seq<nat>, data: seq<Byte>, room: int)
    requires Acyclic(g, marker, rank) && Complete(g, marker, data) && room >= 0
    ensures |Filling(g, marker, rank, data, room)| > room <==> Straddles(g, marker, rank, data, room)
    decreases |data|
  {
    hide Acyclic, Expand;
    if data != [] {
      DecodedFirst(g, marker, rank, data);
      var size := |First(g, marker, rank, data)|;
      if size < room {
        OutsideExactly(g, marker, rank, data[After(g, marker, data)..], room - size);
      }
    }
  }

  /** Too little room for everything need not straddle: three bytes are meant, and the first fills the room exactly. */
  lemma {:induction false} CutWithoutStraddling()
    ensures
      var g := GrammarOf([Pair(1, 2, 3)]);
      var down: seq<nat> := seq(256, b => if b == 1 then 1 else 0);
      && Acyclic(g, 0, down) && Complete(g, 0, [2, 1])
      && |Decoded(g, 0, down, [2, 1])| == 3 && !Straddles(g, 0, down, [2, 1], 1)
  {
    var g, down := OnePair();
    assert [2, 1][1..] == [1] && [1][1..] == [];
    assert Decoded(g, 0, down, [1]) == Expand(g, 0, down, 1) + [];
    assert Decoded(g, 0, down, [2, 1]) == Expand(g, 0, down, 2) + Decoded(g, 0, down, [1]);
  }

  lemma NothingDecoded(g: Grammar, marker: int, rank: seq<nat>, data: seq<Byte>)
    requires Acyclic(g, marker, rank) && Complete(g, marker, data)
    ensures Decoded(g, marker, rank, data) == [] <==> data == []
  {
    hide Acyclic;
  }

  lemma {:induction false} DecodedFirst(g: Grammar, marker: int, rank: seq<nat>, data: seq<Byte>)
    requires Acyclic(g, marker, rank) && Complete(g, marker, data) && data != []
    ensures After(g, marker, data) <= |data| && Complete(g, marker, data[After(g, marker, data)..])
    ensures Decoded(g, marker, rank, data) == First(g, marker, rank, data) + Decoded(g, marker, rank, data[After(g, marker, data)..])
  {
    hide Acyclic, Expand;
  }

  /** A pair can write one byte more than there is room for. */
  lemma {:induction false} OneByteOver()
    ensures
      var g := GrammarOf([Pair(1, 2, 3)]);
      var down: seq<nat> := seq(256, b => if b == 1 then 1 else 0);
      && Acyclic(g, 0, down) && Complete(g, 0, [1, 2]) && Filling(g, 0, down, [1, 2], 1) == [2, 3]
  {
    var g, down := OnePair();
    assert [1, 2][1..] == [2] && [2][1..] == [];
  }

  lemma {:induction false} OnePair() returns (g: Grammar, down: seq<nat>)
    ensures g == GrammarOf([Pair(1, 2, 3)]) && down == seq(256, b => if b == 1 then 1 else 0)
    ensures g == map[1 := (2, 3)] && Acyclic(g, 0, down)
    ensures Expand(g, 0, down, 1) == [2, 3] && Expand(g, 0, down, 2) == [2] && Expand(g, 0, down, 9) == [9]
  {
    var pairs := [Pair(1, 2, 3)];
    assert pairs[..0] == [];
    g := GrammarOf(pairs);
    down := seq(256, b => if b == 1 then 1 else 0);
    assert Expand(g, 0, down, 2) == [2] && Expand(g, 0, down, 3) == [3];
    assert LeadsDown(g, 0, down, 1, 2) && LeadsDown(g, 0, down, 1, 3);
    assert Expand(g, 0, down, 1) == [2] + [3];
  }

  // ---------------------------------------------------------------- the machine

  /** The lookup tables hold the grammar: plain bytes stand for themselves, an escape marker for its complement. */
  ghost predicate Holds(first: seq<Byte>, second: seq<Byte>, g: Grammar, marker: int) {
    && |first| == |second| == 256
    && (forall b: Byte | b in g :: first[b] == g[b].0 && second[b] == g[b].1)
    && (forall b: Byte | b !in g :: first[b] == if b == marker then 255 - b else b)
  }

  /** Where the machine is: the labels of its jumps. */
  datatype Label = ProcessReplace | NotSingle | DoPair | Recurse | DoMarker

  ghost function ExpandStack(g: Grammar, marker: int, rank: seq<nat>, stack: seq<Byte>): seq<Byte>
    requires Acyclic(g, marker, rank)
  {
    if stack == [] then []
    else Expand(g, marker, rank, stack[|stack| - 1]) + ExpandStack(g, marker, rank, stack[..|stack| - 1])
  }

  ghost function StackNodes(g: Grammar, marker: int, rank: seq<nat>, stack: seq<Byte>): nat
    requires Acyclic(g, marker, rank)
  {
    if stack == [] then 0
    else Nodes(g, marker, rank, stack[|stack| - 1]) + StackNodes(g, marker, rank, stack[..|stack| - 1])
  }

  /** A byte inside an expansion is never a marker without a pair. */
  ghost predicate Inside(g: Grammar, marker: int, b: Byte) {
    b != marker || b in g
  }

  ghost predicate AllInside(g: Grammar, marker: int, stack: seq<Byte>) {
    forall i | 0 <= i < |stack| :: Inside(g, marker, stack[i])
  }

  /** The machine's registers. */
  datatype Machine = Machine(at: Label, b: Byte, p1: Byte, stack: seq<Byte>, pos: nat)

  /** What is still to come, given the place in the data. */
  ghost function Ahead(g: Grammar, marker: int, rank: seq<nat>, data: seq<Byte>, m: Machine): seq<Byte>
    requires Acyclic(g, marker, rank) && Consistent(g, marker, data, m)
  {
    match m.at
    case ProcessReplace => [m.p1] + Decoded(g, marker, rank, data[m.pos..])
    case NotSingle => Decoded(g, marker, rank, data[m.pos - 1..])
    case DoMarker => [data[m.pos]] + Decoded(g, marker, rank, data[m.pos + 1..])
    case _ => Expand(g, marker, rank, m.b) + ExpandStack(g, marker, rank, m.stack) + Decoded(g, marker, rank, data[m.pos..])
  }

  ghost predicate Consistent(g: Grammar, marker: int, data: seq<Byte>, m: Machine) {
    && m.pos <= |data|
    && match m.at
       case ProcessReplace => m.stack == [] && Complete(g, marker, data[m.pos..])
       case NotSingle =>
         && m.stack == [] && m.pos > 0 && m.b == data[m.pos - 1] && (!Plain(g, m.b) || Escapes(g, marker, m.b))
         && Complete(g, marker, data[m.pos - 1..]) && (!Escapes(g, marker, m.b) ==> m.b in g && m.p1 == g[m.b].0)
       case DoMarker => m.stack == [] && m.pos < |data| && Complete(g, marker, data[m.pos + 1..])
       case DoPair => !Plain(g, m.b) && m.p1 == g[m.b].0 && AllInside(g, marker, m.stack) && Complete(g, marker, data[m.pos..])
       case Recurse =>
         && (if Plain(g, m.b) then m.p1 == m.b else m.p1 == g[m.b].0)
         && Inside(g, marker, m.b) && AllInside(g, marker, m.stack) && Complete(g, marker, data[m.pos..])
  }

  /** Steps that are left before the next byte of the data. */
  ghost function Work(g: Grammar, marker: int, rank: seq<nat>, m: Machine): nat
    requires Acyclic(g, marker, rank)
  {
    match m.at
    case ProcessReplace => 0
    case NotSingle => 2 * Nodes(g, marker, rank, m.b) + 2
    case DoMarker => 1
    case DoPair => 2 * (Nodes(g, marker, rank, m.b) + StackNodes(g, marker, rank, m.stack))
    case Recurse => 2 * (Nodes(g, marker, rank, m.b) + StackNodes(g, marker, rank, m.stack)) + 1
  }

  /** A table entry says whether a byte is plain. */
  lemma {:induction false} EntryMeans(first: seq<Byte>, second: seq<Byte>, g: Grammar, marker: int, b: Byte)
    requires Holds(first, second, g, marker)
    ensures first[b] == b <==> Plain(g, b) && !Escapes(g, marker, b)
    ensures b in g ==> first[b] == g[b].0 && second[b] == g[b].1
    ensures Inside(g, marker, b) ==> !(Plain(g, b) && Escapes(g, marker, b)) && (Plain(g, b) ==> first[b] == b)
  {
  }

  /** The next byte of the data is taken. */
  lemma {:induction false} TakeByte(first: seq<Byte>, second: seq<Byte>, g: Grammar, marker: int, rank: seq<nat>, data: seq<Byte>, pos: nat)
    requires Acyclic(g, marker, rank) && Holds(first, second, g, marker)
    requires pos < |data| && Complete(g, marker, data[pos..])
    ensures var b := data[pos];
            var m := Machine(if first[b] == b then ProcessReplace else NotSingle, b, first[b], [], pos + 1);
            Consistent(g, marker, data, m) && Ahead(g, marker, rank, data, m) == Decoded(g, marker, rank, data[pos..])
  {
    var b := data[pos];
    EntryMeans(first, second, g, marker, b);
    hide Holds, Acyclic;
    assert data[pos..][0] == b && data[pos..][1..] == data[pos + 1..];
  }

  /** An escape marker or a pair. */
  lemma {:induction false} Dispatch(g: Grammar, marker: int, rank: seq<nat>, data: seq<Byte>, m: Machine)
    requires Acyclic(g, marker, rank) && Consistent(g, marker, data, m) && m.at == NotSingle
    ensures var next := m.(at := if m.b == marker then DoMarker else DoPair);
            Consistent(g, marker, data, next) && Ahead(g, marker, rank, data, next) == Ahead(g, marker, rank, data, m)
    ensures m.stack == []
  {
    hide Acyclic, Expand;
    var d := data[m.pos - 1..];
    assert d[0] == m.b && d[1..] == data[m.pos..];
    if Escapes(g, marker, m.b) {
      assert d[1] == data[m.pos] && d[2..] == data[m.pos + 1..];
    } else {
      assert ExpandStack(g, marker, rank, []) == [];
    }
  }

  /** A pair gives way to its first half; the second is stacked. */
  lemma {:induction false} SplitPair(first: seq<Byte>, second: seq<Byte>, g: Grammar, marker: int, rank: seq<nat>, data: seq<Byte>, m: Machine)
    requires Acyclic(g, marker, rank) && Holds(first, second, g, marker) && Consistent(g, marker, data, m) && m.at == DoPair
    ensures var next := Machine(Recurse, m.p1, first[m.p1], m.stack + [second[m.b]], m.pos);
            && Consistent(g, marker, data, next) && Ahead(g, marker, rank, data, next) == Ahead(g, marker, rank, data, m)
            && Work(g, marker, rank, next) < Work(g, marker, rank, m)
  {
    var p2 := second[m.b];
    EntryMeans(first, second, g, marker, m.b);
    EntryMeans(first, second, g, marker, m.p1);
    Halves(g, marker, rank, m.b);
    StackOne(g, marker, rank, m.stack, p2);
    hide Acyclic, Holds, Expand, Nodes, ExpandStack, StackNodes, Decoded, Complete;
    var a, b, c, d := Expand(g, marker, rank, m.p1), Expand(g, marker, rank, p2), ExpandStack(g, marker, rank, m.stack),
      Decoded(g, marker, rank, data[m.pos..]);
    assert a + b + c + d == a + (b + c) + d;
  }

  lemma {:induction false} Halves(g: Grammar, marker: int, rank: seq<nat>, b: Byte)
    requires Acyclic(g, marker, rank) && !Plain(g, b)
    ensures Expand(g, marker, rank, b) == Expand(g, marker, rank, g[b].0) + Expand(g, marker, rank, g[b].1)
    ensures Nodes(g, marker, rank, b) == 1 + Nodes(g, marker, rank, g[b].0) + Nodes(g, marker, rank, g[b].1)
    ensures Inside(g, marker, g[b].0) && Inside(g, marker, g[b].1)
  {
    assert LeadsDown(g, marker, rank, b, g[b].0) && LeadsDown(g, marker, rank, b, g[b].1);
  }

  lemma {:induction false} StackOne(g: Grammar, marker: int, rank: seq<nat>, stack: seq<Byte>, b: Byte)
    requires Acyclic(g, marker, rank)
    ensures ExpandStack(g, marker, rank, stack + [b]) == Expand(g, marker, rank, b) + ExpandStack(g, marker, rank, stack)
    ensures StackNodes(g, marker, rank, stack + [b]) == Nodes(g, marker, rank, b) + StackNodes(g, marker, rank, stack)
  {
    hide Expand, Nodes, Acyclic;
    assert (stack + [b])[..|stack|] == stack;
  }

  /** A plain byte is put out, and the stacked half on top comes next. */
  lemma {:induction false} Pop(first: seq<Byte>, second: seq<Byte>, g: Grammar, marker: int, rank: seq<nat>, data: seq<Byte>, m: Machine)
    requires Acyclic(g, marker, rank) && Holds(first, second, g, marker) && Consistent(g, marker, data, m)
    requires m.at == Recurse && m.b == m.p1
    ensures m.stack == [] ==>
              var next := m.(at := ProcessReplace);
              Consistent(g, marker, data, next) && Ahead(g, marker, rank, data, next) == Ahead(g, marker, rank, data, m)
    ensures m.stack != [] ==>
              var top := m.stack[|m.stack| - 1];
              var next := Machine(Recurse, top, first[top], m.stack[..|m.stack| - 1], m.pos);
              && Consistent(g, marker, data, next) && [m.p1] + Ahead(g, marker, rank, data, next) == Ahead(g, marker, rank, data, m)
              && Work(g, marker, rank, next) < Work(g, marker, rank, m)
  {
    EntryMeans(first, second, g, marker, m.b);
    assert Plain(g, m.b);
    assert Expand(g, marker, rank, m.b) == [m.b] && Nodes(g, marker, rank, m.b) == 1;
    var d := Decoded(g, marker, rank, data[m.pos..]);
    if m.stack == [] {
      assert ExpandStack(g, marker, rank, []) == [];
      assert [m.b] + [] + d == [m.b] + d;
    } else {
      var top, front := m.stack[|m.stack| - 1], m.stack[..|m.stack| - 1];
      EntryMeans(first, second, g, marker, top);
      assert Inside(g, marker, top);
      StackOne(g, marker, rank, front, top);
      assert front + [top] == m.stack;
      PopStep(g, marker, rank, m.b, top, front, d);
    }
  }

  lemma {:induction false} PopStep(g: Grammar, marker: int, rank: seq<nat>, b: Byte, top: Byte, front: seq<Byte>, d: seq<Byte>)
    requires Acyclic(g, marker, rank)
    ensures var a, c := Expand(g, marker, rank, top), ExpandStack(g, marker, rank, front); [b] + (a + c + d) == [b] + (a + c) + d
  {
  }

  /** How the written bytes belong to the data: `done` are the expansions before the one that began at `start`. */
  ghost predicate OnTheWay(g: Grammar, marker: int, rank: seq<nat>, data: seq<Byte>, m: Machine, room: int, done: seq<Byte>, start: nat)
    requires Acyclic(g, marker, rank) && Complete(g, marker, data)
  {
    && start < |data| && Complete(g, marker, data[start..])
    && Decoded(g, marker, rank, data) == done + Decoded(g, marker, rank, data[start..])
    && Filling(g, marker, rank, data, room) == done + Filling(g, marker, rank, data[start..], room - |done|)
    && m.pos == start + (if m.at == ProcessReplace then After(g, marker, data[start..]) else 1)
    && (m.at == DoMarker ==> Escapes(g, marker, data[start]))
    && (m.at == DoPair || m.at == Recurse ==> !Escapes(g, marker, data[start]))
  }

  /** When the next byte of the data is due, the expansion before it is written, but for the byte that is ready. */
  lemma {:induction false} ExpansionEnds(g: Grammar, marker: int, rank: seq<nat>, data: seq<Byte>, m: Machine, room: int,
                                         done: seq<Byte>, start: nat, dest: seq<Byte>)
    requires Acyclic(g, marker, rank) && Complete(g, marker, data) && OnTheWay(g, marker, rank, data, m, room, done, start)
    requires m.at == ProcessReplace && m.pos <= |data| && Complete(g, marker, data[m.pos..])
    requires dest + ([m.p1] + Decoded(g, marker, rank, data[m.pos..])) == Decoded(g, marker, rank, data)
    ensures m.pos == |data| || |dest| + 1 >= room ==> Filling(g, marker, rank, data, room) == dest + [m.p1]
    ensures m.pos < |data| && |dest| + 1 < room ==>
      && Decoded(g, marker, rank, data) == dest + [m.p1] + Decoded(g, marker, rank, data[m.pos..])
      && Filling(g, marker, rank, data, room) == dest + [m.p1] + Filling(g, marker, rank, data[m.pos..], room - (|dest| + 1))
  {
    hide Acyclic, Expand, Decoded, First, Complete, Filling, After;
    var rest := data[start..];
    DecodedFirst(g, marker, rank, rest);
    FillingFirst(g, marker, rank, rest, room - |done|);
    FillingNothing(g, marker, rank, room - |done| - |First(g, marker, rank, rest)|);
    assert rest[After(g, marker, rest)..] == data[m.pos..];
    var first, tail := First(g, marker, rank, rest), Decoded(g, marker, rank, data[m.pos..]);
    SameFront(dest + [m.p1], done + first, tail, Decoded(g, marker, rank, data));
  }

  lemma FillingFirst(g: Grammar, marker: int, rank: seq<nat>, data: seq<Byte>, room: int)
    requires Acyclic(g, marker, rank) && Complete(g, marker, data) && data != []
    ensures After(g, marker, data) <= |data| && Complete(g, marker, data[After(g, marker, data)..])
    ensures
      var first := First(g, marker, rank, data);
      Filling(g, marker, rank, data, room)
      == first + if |first| >= room then [] else Filling(g, marker, rank, data[After(g, marker, data)..], room - |first|)
  {
    hide Acyclic, First;
  }

  lemma FillingNothing(g: Grammar, marker: int, rank: seq<nat>, room: int)
    requires Acyclic(g, marker, rank)
    ensures Filling(g, marker, rank, [], room) == []
  {
    hide Acyclic;
  }

  lemma SameFront(a: seq<Byte>, b: seq<Byte>, tail: seq<Byte>, full: seq<Byte>)
    requires a + tail == full == b + tail
    ensures a == b
  {
    assert |a| == |b|;
    assert a == full[..|a|] && b == full[..|b|];
  }

  lemma {:induction false} StartOnTheWay(first: seq<Byte>, second: seq<Byte>, g: Grammar, marker: int, rank: seq<nat>, data: seq<Byte>,
                                         room: int, done: seq<Byte>, start: nat)
    requires Acyclic(g, marker, rank) && Complete(g, marker, data) && Holds(first, second, g, marker)
    requires start < |data| && Complete(g, marker, data[start..])
    requires Decoded(g, marker, rank, data) == done + Decoded(g, marker, rank, data[start..])
    requires Filling(g, marker, rank, data, room) == done + Filling(g, marker, rank, data[start..], room - |done|)
    ensures
      var b := data[start];
      var m := Machine(if first[b] == b then ProcessReplace else NotSingle, b, first[b], [], start + 1);
      OnTheWay(g, marker, rank, data, m, room, done, start)
  {
    EntryMeans(first, second, g, marker, data[start]);
  }

  lemma {:induction false} NothingDone(g: Grammar, marker: int, rank: seq<nat>, data: seq<Byte>, room: int)
    requires Acyclic(g, marker, rank) && Complete(g, marker, data)
    ensures data[0..] == data && Decoded(g, marker, rank, data) == [] + Decoded(g, marker, rank, data[0..])
    ensures Filling(g, marker, rank, data, room) == [] + Filling(g, marker, rank, data[0..], room)
  {
    assert data[0..] == data;
  }

  lemma {:induction false} DispatchOnTheWay(g: Grammar, marker: int, rank: seq<nat>, data: seq<Byte>, m: Machine, room: int,
                                            done: seq<Byte>, start: nat)
    requires Acyclic(g, marker, rank) && Complete(g, marker, data) && OnTheWay(g, marker, rank, data, m, room, done, start)
    requires Consistent(g, marker, data, m) && m.at == NotSingle
    ensures OnTheWay(g, marker, rank, data, m.(at := if m.b == marker then DoMarker else DoPair), room, done, start)
  {
    hide Acyclic, Complete, Decoded, Filling;
  }

  lemma {:induction false} MoveOnTheWay(g: Grammar, marker: int, rank: seq<nat>, data: seq<Byte>, m: Machine, next: Machine, room: int,
                                        done: seq<Byte>, start: nat)
    requires Acyclic(g, marker, rank) && Complete(g, marker, data) && OnTheWay(g, marker, rank, data, m, room, done, start)
    requires ((m.at == DoPair || m.at == Recurse) && next.at != NotSingle && next.at != DoMarker && next.pos == m.pos)
          || (m.at == DoMarker && next.at == ProcessReplace && next.pos == m.pos + 1)
    ensures OnTheWay(g, marker, rank, data, next, room, done, start)
  {
    hide Acyclic, Complete, Decoded, Filling;
    assert data[start..][0] == data[start];
  }

  /** Decodes until the data or the room end. Room is looked for between two bytes of the data only: the output is
      the shortest sequence of whole expansions that fills the room. */
  method DecodeData(first: array<Byte>, second: array<Byte>, marker: int, data: seq<Byte>, destSize: nat,
                    ghost g: Grammar, ghost rank: seq<nat>) returns (dest: seq<Byte>)
    requires Acyclic(g, marker, rank) && Holds(first[..], second[..], g, marker) && Complete(g, marker, data) && data != []
    ensures dest == Filling(g, marker, rank, data, destSize)
    ensures |dest| > destSize <==> Straddles(g, marker, rank, data, destSize)
  {
    hide OnTheWay, Filling, Straddles, Acyclic, Holds, Complete, Decoded, Expand, Nodes, ExpandStack, StackNodes, Consistent, Ahead, Work;
    ghost var f, t, full := first[..], second[..], Decoded(g, marker, rank, data);
    TableSize(f, t, g, marker);
    OutsideExactly(g, marker, rank, data, destSize);
    assert data[0..] == data && [] + full == full;
    TakeByte(f, t, g, marker, rank, data, 0);
    NothingDone(g, marker, rank, data, destSize);
    StartOnTheWay(f, t, g, marker, rank, data, destSize, [], 0);
    ghost var done: seq<Byte>, start: nat := [], 0;
    dest := [];
    var stack: seq<Byte>, pos, b := [], 1, data[0];
    var p1 := first[b];
    var at := if p1 != b then NotSingle else ProcessReplace;
    while true
      invariant 1 <= pos <= |data| && first[..] == f && second[..] == t && |f| == |t| == 256
      invariant Consistent(g, marker, data, Machine(at, b, p1, stack, pos))
      invariant dest + Ahead(g, marker, rank, data, Machine(at, b, p1, stack, pos)) == full
      invariant OnTheWay(g, marker, rank, data, Machine(at, b, p1, stack, pos), destSize, done, start)
      decreases |data| - pos, Work(g, marker, rank, Machine(at, b, p1, stack, pos))
    {
      ghost var m := Machine(at, b, p1, stack, pos);
      match at
      case ProcessReplace =>
        OneAhead(g, marker, rank, data, m);
        ExpansionEnds(g, marker, rank, data, m, destSize, done, start, dest);
        if pos >= |data| {
          return dest + [p1];
        }
        TakeByte(f, t, g, marker, rank, data, pos);
        Append(dest, [p1], Decoded(g, marker, rank, data[pos..]));
        b := data[pos];
        pos := pos + 1;
        dest := dest + [p1];
        if |dest| >= destSize {
          return;
        }
        done, start := dest, pos - 1;
        StartOnTheWay(f, t, g, marker, rank, data, destSize, done, start);
        p1 := first[b];
        at := if p1 == b then ProcessReplace else NotSingle;
      case NotSingle =>
        Dispatch(g, marker, rank, data, m);
        DispatchWork(g, marker, rank, m);
        DispatchOnTheWay(g, marker, rank, data, m, destSize, done, start);
        at := if b == marker then DoMarker else DoPair;
      case DoPair =>
        SplitPair(f, t, g, marker, rank, data, m);
        var p2 := second[b];
        b := p1;
        p1 := first[b];
        stack := stack + [p2];
        at := Recurse;
        MoveOnTheWay(g, marker, rank, data, m, Machine(at, b, p1, stack, pos), destSize, done, start);
      case Recurse =>
        if b != p1 {
          PairInside(g, marker, rank, data, m);
          at := DoPair;
          MoveOnTheWay(g, marker, rank, data, m, Machine(at, b, p1, stack, pos), destSize, done, start);
        } else {
          Pop(f, t, g, marker, rank, data, m);
          if stack == [] {
            PopWork(g, marker, rank, m);
            at := ProcessReplace;
            MoveOnTheWay(g, marker, rank, data, m, Machine(at, b, p1, stack, pos), destSize, done, start);
          } else {
            b := stack[|stack| - 1];
            stack := stack[..|stack| - 1];
            Append(dest, [p1], Ahead(g, marker, rank, data, Machine(Recurse, b, f[b], stack, pos)));
            dest := dest + [p1];
            p1 := first[b];
            MoveOnTheWay(g, marker, rank, data, m, Machine(at, b, p1, stack, pos), destSize, done, start);
          }
        }
      case DoMarker =>
        Literal(g, marker, rank, data, m);
        p1 := data[pos];
        pos := pos + 1;
        at := ProcessReplace;
        MoveOnTheWay(g, marker, rank, data, m, Machine(at, b, p1, stack, pos), destSize, done, start);
    }
  }

  lemma {:induction false} TableSize(first: seq<Byte>, second: seq<Byte>, g: Grammar, marker: int)
    requires Holds(first, second, g, marker)
    ensures |first| == |second| == 256
  {
  }

  lemma {:induction false} Append(a: seq<Byte>, b: seq<Byte>, c: seq<Byte>)
    ensures a + (b + c) == a + b + c && a + b <= a + b + c
  {
  }

  /** Before the next byte of the data, one byte is ready to be put out. */
  lemma {:induction false} OneAhead(g: Grammar, marker: int, rank: seq<nat>, data: seq<Byte>, m: Machine)
    requires Acyclic(g, marker, rank) && Consistent(g, marker, data, m) && m.at == ProcessReplace
    ensures m.stack == [] && m.pos <= |data| && Complete(g, marker, data[m.pos..])
    ensures Ahead(g, marker, rank, data, m) == [m.p1] + Decoded(g, marker, rank, data[m.pos..])
    ensures m.pos == |data| ==> Ahead(g, marker, rank, data, m) == [m.p1]
  {
    hide Acyclic, Expand;
  }

  lemma {:induction false} DispatchWork(g: Grammar, marker: int, rank: seq<nat>, m: Machine)
    requires Acyclic(g, marker, rank) && m.at == NotSingle && m.stack == []
    ensures Work(g, marker, rank, m.(at := DoMarker)) < Work(g, marker, rank, m)
    ensures Work(g, marker, rank, m.(at := DoPair)) < Work(g, marker, rank, m)
  {
    hide Acyclic, Nodes;
  }

  lemma {:induction false} PopWork(g: Grammar, marker: int, rank: seq<nat>, m: Machine)
    requires Acyclic(g, marker, rank) && m.at == Recurse
    ensures Work(g, marker, rank, m.(at := ProcessReplace)) < Work(g, marker, rank, m)
  {
    hide Acyclic, Nodes, StackNodes;
  }

  lemma {:induction false} PairInside(g: Grammar, marker: int, rank: seq<nat>, data: seq<Byte>, m: Machine)
    requires Acyclic(g, marker, rank) && Consistent(g, marker, data, m) && m.at == Recurse && m.b != m.p1
    ensures var next := m.(at := DoPair);
            && Consistent(g, marker, data, next) && Ahead(g, marker, rank, data, next) == Ahead(g, marker, rank, data, m)
            && Work(g, marker, rank, next) < Work(g, marker, rank, m)
  {
    hide Acyclic, Expand, Nodes, ExpandStack, StackNodes, Decoded, Complete;
  }

  lemma {:induction false} Literal(g: Grammar, marker: int, rank: seq<nat>, data: seq<Byte>, m: Machine)
    requires Acyclic(g, marker, rank) && Consistent(g, marker, data, m) && m.at == DoMarker
    ensures m.pos < |data|
    ensures var next := Machine(ProcessReplace, m.b, data[m.pos], m.stack, m.pos + 1);
            Consistent(g, marker, data, next) && Ahead(g, marker, rank, data, next) == Ahead(g, marker, rank, data, m)
  {
    hide Acyclic, Expand;
  }

  // ---------------------------------------------------------------- the table

  lemma {:induction false} HoldsOne(first: seq<Byte>, second: seq<Byte>, g: Grammar, marker: int, p: Pair)
    requires Holds(first, second, g, marker)
    ensures Holds(first[p.code := p.left], second[p.code := p.right], g[p.code := (p.left, p.right)], marker)
  {
  }

  lemma {:induction false} GrammarOne(pairs: seq<Pair>, i: nat)
    requires i < |pairs|
    ensures GrammarOf(pairs[..i + 1]) == GrammarOf(pairs[..i])[pairs[i].code := (pairs[i].left, pairs[i].right)]
  {
    assert pairs[..i + 1][..i] == pairs[..i];
  }

  /** Bit `b % 8` of byte `b / 8` of a 256-bit mask. */
  predicate Marked(mask: seq<Byte>, b: nat)
    requires |mask| == 32 && b < 256
  {
    mask[b / 8] / Pow2(b % 8) % 2 == 1
  }

  /** The marked bytes below `n`, in order. */
  ghost function MarkedBytes(mask: seq<Byte>, n: nat): (bs: seq<Byte>)
    requires |mask| == 32 && n <= 256
    ensures |bs| <= n
  {
    if n == 0 then [] else MarkedBytes(mask, n - 1) + (if Marked(mask, n - 1) then [n - 1] else [])
  }

  /** The table as a list of up to 31 triples, before position `at`. */
  ghost predicate ListLayout(buffer: seq<Byte>, marker: int, pairs: seq<Pair>, at: nat) {
    && 1 <= |pairs| < 32 && at == 2 + 3 * |pairs| && at <= |buffer| && buffer[0] == |pairs| && buffer[1] == marker
    && forall i | 0 <= i < |pairs| :: pairs[i] == Pair(buffer[2 + 3 * i], buffer[3 + 3 * i], buffer[4 + 3 * i])
  }

  /** The table as a mask of the paired bytes and their pairs in order. */
  ghost predicate MaskLayout(buffer: seq<Byte>, marker: int, pairs: seq<Pair>, at: nat) {
    && |buffer| >= 34 && buffer[0] >= 32 && buffer[1] == marker && at == 34 + 2 * |pairs| && at <= |buffer|
    && var codes := MarkedBytes(buffer[2..34], 256);
       |codes| == |pairs| && forall i | 0 <= i < |pairs| :: pairs[i] == Pair(codes[i], buffer[34 + 2 * i], buffer[35 + 2 * i])
  }

  /** A table with marks for the bytes 0, 2 and 254, byte by byte. */
  lemma {:induction false} MaskedTable()
    ensures
      var zeros: seq<Byte> := seq(30, _ => 0);
      var buffer: seq<Byte> := [40, 200] + [0x05] + zeros + [0x40] + [11, 12, 13, 14, 15, 16];
      MaskLayout(buffer, 200, [Pair(0, 11, 12), Pair(2, 13, 14), Pair(254, 15, 16)], 40)
  {
    var zeros: seq<Byte> := seq(30, _ => 0);
    var mask: seq<Byte> := [0x05] + zeros + [0x40];
    var buffer: seq<Byte> := [40, 200] + [0x05] + zeros + [0x40] + [11, 12, 13, 14, 15, 16];
    assert buffer[2..34] == mask;
    MarksOfMask(mask);
  }

  lemma {:induction false} MarksOfMask(mask: seq<Byte>)
    requires |mask| == 32 && mask[0] == 0x05 && mask[31] == 0x40 && forall i | 1 <= i < 31 :: mask[i] == 0
    ensures MarkedBytes(mask, 256) == [0, 2, 254]
  {
    assert Pow2(0) == 1 && Pow2(1) == 2 && Pow2(2) == 4 && Pow2(3) == 8;
    assert Pow2(4) == 16 && Pow2(5) == 32 && Pow2(6) == 64 && Pow2(7) == 128;
    assert Marked(mask, 0) && !Marked(mask, 1) && Marked(mask, 2) && Marked(mask, 254) && !Marked(mask, 255);
    assert forall b | 3 <= b < 254 :: !Marked(mask, b);
    hide Marked;
    NoMarks(mask, 3, 254);
    assert MarkedBytes(mask, 1) == [0] && MarkedBytes(mask, 2) == [0] && MarkedBytes(mask, 3) == [0, 2];
    assert MarkedBytes(mask, 255) == [0, 2, 254];
  }

  lemma {:induction false} NoMarks(mask: seq<Byte>, from: nat, end: nat)
    requires |mask| == 32 && from <= end <= 256 && forall b | from <= b < end :: !Marked(mask, b)
    ensures MarkedBytes(mask, end) == MarkedBytes(mask, from)
  {
    if from < end {
      NoMarks(mask, from, end - 1);
    }
  }

  const NO_MARKER: int := 0xFFFFFFFF

  /** A table in one of its three forms. */
  ghost predicate Layout(buffer: seq<Byte>, marker: int, pairs: seq<Pair>, at: nat) {
    || (|buffer| >= 1 && buffer[0] == 0 && marker == NO_MARKER && pairs == [] && at == 1)
    || ListLayout(buffer, marker, pairs, at)
    || MaskLayout(buffer, marker, pairs, at)
  }

  lemma {:induction false} FreshTable(first: seq<Byte>, second: seq<Byte>, marker: int)
    requires |first| == |second| == 256 && forall b | 0 <= b < 256 :: first[b] == if b == marker then 255 - b else b
    ensures Holds(first, second, GrammarOf([]), marker)
  {
  }

  /** Enters one pair. */
  method EnterPair(first: array<Byte>, second: array<Byte>, b: Byte, p1: Byte, p2: Byte, ghost g: Grammar, ghost marker: int)
    requires first != second && Holds(first[..], second[..], g, marker)
    modifies first, second
    ensures Holds(first[..], second[..], g[b := (p1, p2)], marker)
  {
    ghost var f: seq<Byte>, t: seq<Byte> := first[..], second[..];
    HoldsOne(f, t, g, marker, Pair(b, p1, p2));
    first[b] := p1;
    second[b] := p2;
    assert first[..] == f[b := p1] && second[..] == t[b := p2];
  }

  /** Reads triples up to the end of the list. */
  method ReadList(buffer: seq<Byte>, first: array<Byte>, second: array<Byte>, ghost marker: int, ghost pairs: seq<Pair>) returns (pos: nat)
    requires first != second && ListLayout(buffer, marker, pairs, 2 + 3 * |pairs|) && Holds(first[..], second[..], GrammarOf([]), marker)
    modifies first, second
    ensures pos == 2 + 3 * |pairs| && Holds(first[..], second[..], GrammarOf(pairs), marker)
  {
    hide Holds, GrammarOf;
    var pairEnd := 2 + 3 * buffer[0] as int;
    pos := 2;
    ghost var i: nat := 0;
    assert pairs[..0] == [];
    while pos < pairEnd
      invariant i <= |pairs| && pos == 2 + 3 * i && Holds(first[..], second[..], GrammarOf(pairs[..i]), marker)
    {
      GrammarOne(pairs, i);
      EnterPair(first, second, buffer[pos], buffer[pos + 1], buffer[pos + 2], GrammarOf(pairs[..i]), marker);
      pos := pos + 3;
      i := i + 1;
    }
    assert pairs[..i] == pairs;
  }

  lemma {:induction false} NextMarked(mask: seq<Byte>, b: nat)
    requires |mask| == 32 && b < 256
    ensures MarkedBytes(mask, b) <= MarkedBytes(mask, b + 1) <= MarkedBytes(mask, 256)
    ensures Marked(mask, b) ==> |MarkedBytes(mask, b + 1)| == |MarkedBytes(mask, b)| + 1 && MarkedBytes(mask, 256)[|MarkedBytes(mask, b)|] == b
    ensures !Marked(mask, b) ==> MarkedBytes(mask, b + 1) == MarkedBytes(mask, b)
    decreases 256 - b
  {
    hide Marked;
    if b < 255 {
      NextMarked(mask, b + 1);
    }
  }

  /** Reads a pair for every marked byte; fails if their number is not the announced one. */
  method ReadMask(buffer: seq<Byte>, first: array<Byte>, second: array<Byte>, ghost marker: int, ghost pairs: seq<Pair>)
    returns (ok: bool, pos: nat)
    requires first != second && MaskLayout(buffer, marker, pairs, 34 + 2 * |pairs|) && Holds(first[..], second[..], GrammarOf([]), marker)
    modifies first, second
    ensures ok <==> |pairs| == buffer[0]
    ensures pos == 34 + 2 * |pairs| && Holds(first[..], second[..], GrammarOf(pairs), marker)
  {
    hide Holds, GrammarOf, Marked, MarkedBytes;
    var mask := buffer[2..34];
    ghost var codes := MarkedBytes(mask, 256);
    var totalPair: int := buffer[0];
    pos := 34;
    var b := 0;
    NoneMarked(mask);
    assert pairs[..0] == [];
    while b < 256
      invariant 0 <= b <= 256 && |MarkedBytes(mask, b)| <= |pairs| && pos == 34 + 2 * |MarkedBytes(mask, b)|
      invariant totalPair == buffer[0] - |MarkedBytes(mask, b)|
      invariant Holds(first[..], second[..], GrammarOf(pairs[..|MarkedBytes(mask, b)|]), marker)
    {
      ghost var i := |MarkedBytes(mask, b)|;
      NextMarked(mask, b);
      if Marked(mask, b) {
        GrammarOne(pairs, i);
        EnterPair(first, second, b, buffer[pos], buffer[pos + 1], GrammarOf(pairs[..i]), marker);
        pos := pos + 2;
        totalPair := totalPair - 1;
      }
      b := b + 1;
    }
    assert pairs[..|pairs|] == pairs;
    ok := totalPair == 0;
  }

  lemma {:induction false} NoneMarked(mask: seq<Byte>)
    requires |mask| == 32
    ensures MarkedBytes(mask, 0) == []
  {
  }

  /** Reads the table in whichever form it comes. */
  method ReadTable(buffer: seq<Byte>, ghost pairs: seq<Pair>, ghost at: nat)
    returns (ok: bool, first: array<Byte>, second: array<Byte>, marker: int, pos: nat)
    requires exists m :: Layout(buffer, m, pairs, at)
    ensures Layout(buffer, marker, pairs, at) && pos == at
    ensures ok <==> (buffer[0] >= 32 ==> |pairs| == buffer[0])
    ensures Holds(first[..], second[..], GrammarOf(pairs), marker)
  {
    hide Holds, GrammarOf, MarkedBytes;
    ghost var m :| Layout(buffer, m, pairs, at);
    first := new Byte[256](i requires 0 <= i < 256 => i);
    second := new Byte[256];
    marker := NO_MARKER;
    ok := true;
    var totalPair := buffer[0];
    if totalPair == 0 {
      FreshTable(first[..], second[..], marker);
      return ok, first, second, marker, 1;
    }
    marker := buffer[1];
    first[marker] := 255 - marker;
    FreshTable(first[..], second[..], marker);
    if totalPair < 32 {
      pos := ReadList(buffer, first, second, marker, pairs);
    } else {
      ok, pos := ReadMask(buffer, first, second, marker, pairs);
    }
  }

  /** Decompresses a buffer whose table is acyclic. The same pairs in list or mask form have the same effect: the
      output fills the room with what the data stand for in the grammar. A mask whose size was announced wrongly gives no output. */
  method Decompress(buffer: seq<Byte>, destSize: nat, ghost marker: int, ghost pairs: seq<Pair>, ghost at: nat, ghost rank: seq<nat>)
    returns (dest: seq<Byte>)
    requires Layout(buffer, marker, pairs, at) && at < |buffer|
    requires Acyclic(GrammarOf(pairs), marker, rank) && Complete(GrammarOf(pairs), marker, buffer[at..])
    ensures buffer[0] >= 32 && |pairs| != buffer[0] ==> dest == []
    ensures !(buffer[0] >= 32 && |pairs| != buffer[0]) ==>
              && dest == Filling(GrammarOf(pairs), marker, rank, buffer[at..], destSize)
              && (|dest| > destSize <==> Straddles(GrammarOf(pairs), marker, rank, buffer[at..], destSize))
  {
    hide Acyclic, Complete, Filling, Straddles, GrammarOf, Holds, MarkedBytes;
    var ok, first, second, m, pos := ReadTable(buffer, pairs, at);
    if !ok {
      return [];
    }
    dest := DecodeData(first, second, m, buffer[pos..], destSize, GrammarOf(pairs), rank);
  }

  /** One pair, a byte by itself, and the paired byte escaped. */
  method Example() returns (dest: seq<Byte>)
    ensures dest == [2, 3, 9, 1]
  {
    hide Acyclic, Filling, Straddles, Complete, Decoded;
    var buffer: seq<Byte> := [1, 0, 1, 2, 3, 1, 9, 0, 1];
    ghost var g, down := OnePair();
    ExampleData(g, down);
    assert buffer[5..] == [1, 9, 0, 1];
    FillingIsAll(g, 0, down, [1, 9, 0, 1], 10);
    dest := Decompress(buffer, 10, 0, [Pair(1, 2, 3)], 5, down);
  }

  lemma {:induction false} ExampleData(g: Grammar, down: seq<nat>)
    requires g == map[1 := (2, 3)] && Acyclic(g, 0, down) && Expand(g, 0, down, 1) == [2, 3] && Expand(g, 0, down, 9) == [9]
    ensures Complete(g, 0, [1, 9, 0, 1]) && Decoded(g, 0, down, [1, 9, 0, 1]) == [2, 3, 9, 1]
  {
    hide Acyclic, Expand;
    assert [1, 9, 0, 1][1..] == [9, 0, 1] && [9, 0, 1][1..] == [0, 1] && [0, 1][2..] == [];
    assert Decoded(g, 0, down, [0, 1]) == [1] + [];
    assert Decoded(g, 0, down, [9, 0, 1]) == [9] + [1];
    assert Decoded(g, 0, down, [1, 9, 0, 1]) == [2, 3] + [9, 1];
  }
}
