/** The byte streams under compressor and expander: a source read in order and a destination with limited room. */
module ScsuStream {
  import opened ByteValues
  import opened Scsu

  function Least(a: nat, b: nat): (m: nat)
    ensures m <= a && m <= b && (m == a || m == b)
  {
    if a <= b then a else b
  }

  /** The bytes were appended as far as there was room; `ok` if there was room for all. */
  ghost predicate Wrote(dest: seq<Byte>, room: nat, dest': seq<Byte>, room': nat, bytes: seq<Byte>, ok: bool) {
    && dest' == dest + bytes[..Least(|bytes|, room)] && room' == room - Least(|bytes|, room)
    && (ok <==> |bytes| <= room)
  }

  lemma {:induction false} WroteNothing(dest: seq<Byte>, room: nat)
    ensures Wrote(dest, room, dest, room, [], true)
  {
  }

  lemma {:induction false} WroteBoth(d0: seq<Byte>, r0: nat, d1: seq<Byte>, r1: nat, d2: seq<Byte>, r2: nat,
                                     a: seq<Byte>, b: seq<Byte>, ok: bool)
    requires Wrote(d0, r0, d1, r1, a, true) && Wrote(d1, r1, d2, r2, b, ok)
    ensures Wrote(d0, r0, d2, r2, a + b, ok)
  {
    var n := Least(|b|, r1);
    assert (a + b)[..|a| + n] == a + b[..n];
  }

  /** Once something did not fit, nothing more does. */
  lemma {:induction false} WroteLess(d0: seq<Byte>, r0: nat, d1: seq<Byte>, r1: nat, a: seq<Byte>, b: seq<Byte>)
    requires Wrote(d0, r0, d1, r1, a, false)
    ensures Wrote(d0, r0, d1, r1, a + b, false) && r1 == 0
  {
    assert (a + b)[..r0] == a[..r0];
  }

  /** When the room is used up exactly, more bytes change nothing. */
  lemma {:induction false} WroteFull(d0: seq<Byte>, r0: nat, d1: seq<Byte>, a: seq<Byte>, b: seq<Byte>)
    requires Wrote(d0, r0, d1, 0, a, true)
    ensures Wrote(d0, r0, d1, 0, a + b, b == [])
  {
    assert (a + b)[..r0] == a;
  }

  function LittleEndian(u: Unit): seq<Byte> {
    [u % 256, u / 256]
  }

  class UnicodeStream {
    var source: seq<Byte>
    var pointer: nat
    var dest: seq<Byte>
    var room: nat

    constructor ()
      ensures pointer == 0 && source == [] && dest == []
    {
      source, pointer, dest, room := [], 0, [], 0;
    }

    method ReadByte() returns (ok: bool, b: Byte)
      modifies `pointer
      ensures ok <==> old(pointer) < |source|
      ensures ok ==> b == source[old(pointer)] && pointer == old(pointer) + 1
      ensures !ok ==> pointer == old(pointer)
    {
      b := 0;
      ok := pointer < |source|;
      if ok {
        b := source[pointer];
        pointer := pointer + 1;
      }
    }

    /** Reads a unit, lower byte first. */
    method ReadByte16() returns (ok: bool, u: Unit)
      modifies `pointer
      ensures ok <==> old(pointer) + 1 < |source|
      ensures ok ==> pointer == old(pointer) + 2 && u == source[old(pointer)] as int + 256 * source[old(pointer) + 1] as int
      ensures old(pointer) <= pointer
    {
      u := 0;
      var b1, b2;
      ok, b1 := ReadByte();
      if ok {
        ok, b2 := ReadByte();
        if ok {
          u := b1 as int + 256 * b2 as int;
        }
      }
    }

    method WriteByte8(b: Byte) returns (ok: bool)
      modifies `dest, `room
      ensures Wrote(old(dest), old(room), dest, room, [b], ok)
    {
      ok := room > 0;
      if ok {
        dest := dest + [b];
        room := room - 1;
      }
    }

    method WriteByte(u: Unit) returns (ok: bool)
      modifies `dest, `room
      ensures Wrote(old(dest), old(room), dest, room, LittleEndian(u), ok)
    {
      ok := WriteByte8(u % 256);
      if ok {
        ok := WriteByte8(u / 256);
      }
    }

    method WriteByteBe(u: Unit) returns (ok: bool)
      modifies `dest, `room
      ensures Wrote(old(dest), old(room), dest, room, BigEndian(u), ok)
    {
      ok := WriteByte8(u / 256);
      if ok {
        ok := WriteByte8(u % 256);
      }
    }
  }

  /** The bytes of a sequence of units. */
  function UnitBytes(us: seq<Unit>): seq<Byte> {
    if us == [] then [] else LittleEndian(us[0]) + UnitBytes(us[1..])
  }

  lemma {:induction false} UnitBytesOne(u: Unit)
    ensures UnitBytes([u]) == LittleEndian(u)
  {
    assert UnitBytes([u]) == LittleEndian(u) + UnitBytes([]);
  }

  lemma {:induction false} UnitBytesConcat(us: seq<Unit>, vs: seq<Unit>)
    ensures UnitBytes(us + vs) == UnitBytes(us) + UnitBytes(vs)
  {
    if us == [] {
      assert us + vs == vs;
    } else {
      UnitBytesConcat(us[1..], vs);
      assert (us + vs)[1..] == us[1..] + vs;
    }
  }
}
