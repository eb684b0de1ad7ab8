/** The bytes of a recorded demo. */
module DemoFormat {
  import opened Bytes
  import opened Ticcmds

  const DEMOMARKER: byte := 0x80
  const DOOM_191_VERSION: byte := 111
  const HEADER: nat := 13

  /** The part of a command that a demo records. */
  datatype Move = Move(forwardmove: sbyte, sidemove: sbyte, angleturn: short, buttons: byte)

  function MoveOf(c: Ticcmd): Move {
    Move(c.forwardmove, c.sidemove, c.angleturn, c.buttons)
  }

  function Moved(c: Ticcmd, m: Move): Ticcmd {
    c.(forwardmove := m.forwardmove, sidemove := m.sidemove, angleturn := m.angleturn, buttons := m.buttons)
  }

  function ToByte(x: sbyte): byte {
    if x < 0 then x + 256 else x
  }

  function ToSByte(b: byte): sbyte {
    if b < 128 then b else b - 256
  }

  /** Storing an integer into a `short`. */
  function ToShort(x: int): short {
    (x + 0x8000) % 0x1_0000 - 0x8000
  }

  /** Bytes per command. */
  function Width(long: bool): nat {
    if long then 5 else 4
  }

  function Encode(m: Move, long: bool): (s: seq<byte>)
    ensures |s| == Width(long)
  {
    [ToByte(m.forwardmove), ToByte(m.sidemove)]
      + (if long then [m.angleturn % 256, m.angleturn / 256 % 256] else [m.angleturn / 256 % 256])
      + [m.buttons]
  }

  function Decode(s: seq<byte>, long: bool): Move
    requires |s| >= Width(long)
  {
    var low: int := s[2];
    var high: int := s[3];
    if long then Move(ToSByte(s[0]), ToSByte(s[1]), ToShort(low + 256 * high), s[4])
    else Move(ToSByte(s[0]), ToSByte(s[1]), ToShort(256 * low), s[3])
  }

  /** What the format can hold of a command: with one byte per turn only the upper half of it. */
  function Recorded(m: Move, long: bool): Move {
    if long then m else m.(angleturn := m.angleturn / 256 * 256)
  }

  lemma CodecRoundTrip(m: Move, long: bool)
    ensures Decode(Encode(m, long), long) == Recorded(m, long)
    ensures Encode(Recorded(m, long), long) == Encode(m, long)
    ensures Encode(m, long)[0] == DEMOMARKER <==> m.forwardmove == -128
  {
    var a: int := m.angleturn;
    var q, r := a / 256, a % 256;
    assert a == 256 * q + r && (q * 256) / 256 == q;
    assert ToShort(r + 256 * (q % 256)) == a && ToShort(256 * (q % 256)) == q * 256;
  }

  /** Nothing is lost exactly if turns are long or a multiple of 256. */
  lemma LosslessExactly(m: Move, long: bool)
    ensures Decode(Encode(m, long), long) == m <==> long || m.angleturn % 256 == 0
  {
    CodecRoundTrip(m, long);
  }

  /** The bytes of a command in order: forward move, side move, turn with its lower byte first or its upper byte alone,
      buttons; what is negative is stored modulo 256. */
  lemma CommandBytes(m: Move, long: bool)
    ensures var s := Encode(m, long); var turn: int, low: int, high: int := m.angleturn, s[2], s[3];
      && |s| == (if long then 5 else 4)
      && s[0] == m.forwardmove % 256 && s[1] == m.sidemove % 256
      && (if long then low + 256 * high == turn % 0x1_0000 && s[4] == m.buttons
          else s[2] == turn % 0x1_0000 / 256 && s[3] == m.buttons)
  {
  }

  /** The other way round: bytes read as a command are the bytes of that command. */
  lemma BytesRoundTrip(s: seq<byte>, long: bool)
    requires |s| == Width(long)
    ensures Encode(Decode(s, long), long) == s
  {
    var low: int, high: int := s[2], s[3];
    SByteKept(s[0]);
    SByteKept(s[1]);
    TurnBytes(low, if long then high else 0);
    TurnBytes(0, low);
    var t := Encode(Decode(s, long), long);
    assert t[0] == s[0] && t[1] == s[1] && t[2] == s[2] && t[3] == s[3];
  }

  lemma SByteKept(b: byte)
    ensures ToByte(ToSByte(b)) == b
  {
  }

  lemma TurnBytes(low: byte, high: byte)
    ensures var a: int, l: int, h: int := ToShort(low as int + 256 * high as int), low, high;
      a % 256 == l && a / 256 % 256 == h
  {
    var x: int := low as int + 256 * high as int;
    assert ToShort(x) == if high < 128 then x else x - 0x1_0000;
    assert x / 256 == high && x % 256 == low;
    assert (x - 0x1_0000) / 256 == high as int - 256 && (x - 0x1_0000) % 256 == low;
  }

  function EncodeAll(ms: seq<Move>, long: bool): (s: seq<byte>)
    ensures |s| == |ms| * Width(long)
  {
    if ms == [] then [] else EncodeAll(ms[..|ms| - 1], long) + Encode(ms[|ms| - 1], long)
  }

  /** Reads commands up to the marker; `None` if the bytes run out before it. */
  function DecodeAll(s: seq<byte>, long: bool): Option<seq<Move>>
    decreases |s|
  {
    if s == [] then None
    else if s[0] == DEMOMARKER then Some([])
    else if |s| < Width(long) then None
    else
      var rest := DecodeAll(s[Width(long)..], long);
      if rest.None? then None else Some([Decode(s, long)] + rest.value)
  }

  /** The commands in front of the marker, or of the place where the bytes run out. */
  function Commands(s: seq<byte>, long: bool): seq<Move>
    decreases |s|
  {
    if s == [] || s[0] == DEMOMARKER || |s| < Width(long) then []
    else [Decode(s, long)] + Commands(s[Width(long)..], long)
  }

  lemma {:induction false} DecodesCommands(s: seq<byte>, long: bool)
    ensures DecodeAll(s, long).Some? ==> DecodeAll(s, long).value == Commands(s, long)
    decreases |s|
  {
    if s != [] && s[0] != DEMOMARKER && |s| >= Width(long) {
      DecodesCommands(s[Width(long)..], long);
    }
  }

  /** A command as it comes back from the format, and not mistaken for the marker. */
  predicate Playable(m: Move, long: bool) {
    m.forwardmove != -128 && Recorded(m, long) == m
  }

  lemma DecodeIgnoresRest(s: seq<byte>, t: seq<byte>, long: bool)
    requires |s| >= Width(long)
    ensures Decode(s + t, long) == Decode(s, long)
  {
  }

  lemma {:induction false} EncodeAllFirst(m: Move, ms: seq<Move>, long: bool)
    ensures EncodeAll([m] + ms, long) == Encode(m, long) + EncodeAll(ms, long)
  {
    var all := [m] + ms;
    if ms == [] {
      assert all == [m] && all[..0] == [];
    } else {
      assert all[..|all| - 1] == [m] + ms[..|ms| - 1];
      EncodeAllFirst(m, ms[..|ms| - 1], long);
      assert EncodeAll(all, long) == EncodeAll(all[..|all| - 1], long) + Encode(ms[|ms| - 1], long);
    }
  }

  lemma DecodeCons(m: Move, t: seq<byte>, long: bool)
    requires Playable(m, long)
    ensures DecodeAll(Encode(m, long) + t, long)
         == var rest := DecodeAll(t, long); if rest.None? then None else Some([m] + rest.value)
  {
    var s := Encode(m, long) + t;
    CodecRoundTrip(m, long);
    DecodeIgnoresRest(Encode(m, long), t, long);
    assert s[0] == Encode(m, long)[0] && s[Width(long)..] == t;
  }

  /** Playing back what was written gives every command, then stops at the marker. */
  lemma {:induction false} PlaysBack(ms: seq<Move>, long: bool)
    requires forall m :: m in ms ==> Playable(m, long)
    ensures DecodeAll(EncodeAll(ms, long) + [DEMOMARKER], long) == Some(ms)
    decreases |ms|
  {
    if ms == [] {
      assert EncodeAll(ms, long) + [DEMOMARKER] == [DEMOMARKER];
    } else {
      var m, rest := ms[0], ms[1..];
      assert ms == [m] + rest;
      EncodeAllFirst(m, rest, long);
      assert EncodeAll(ms, long) + [DEMOMARKER] == Encode(m, long) + (EncodeAll(rest, long) + [DEMOMARKER]);
      PlaysBack(rest, long);
      DecodeCons(m, EncodeAll(rest, long) + [DEMOMARKER], long);
    }
  }

  /** What follows the last whole command of a demo: nothing, the marker, or too few bytes. */
  predicate Ending(tail: seq<byte>, long: bool) {
    tail == [] || tail[0] == 0x80 || |tail| < if long then 5 else 4
  }

  lemma PlaysFirst(m: Move, rest: seq<byte>, long: bool)
    requires Playable(m, long)
    ensures var s := Encode(m, long) + rest;
      && Commands(s, long) == [m] + Commands(rest, long)
      && (DecodeAll(s, long).Some? <==> DecodeAll(rest, long).Some?)
  {
    hide Encode, Decode;
    var s := Encode(m, long) + rest;
    CodecRoundTrip(m, long);
    DecodeIgnoresRest(Encode(m, long), rest, long);
    assert s[0] == Encode(m, long)[0] && s[Width(long)..] == rest;
  }

  /** Any bytes are whole commands and an ending: just these commands are played, and the end is regular exactly if it is
      the marker. */
  lemma {:induction false} PlaysWhole(ms: seq<Move>, tail: seq<byte>, long: bool)
    requires (forall m :: m in ms ==> Playable(m, long)) && Ending(tail, long)
    ensures Commands(EncodeAll(ms, long) + tail, long) == ms
    ensures DecodeAll(EncodeAll(ms, long) + tail, long).Some? <==> tail != [] && tail[0] == 0x80
    decreases |ms|
  {
    if ms == [] {
      assert EncodeAll(ms, long) + tail == tail;
    } else {
      hide Encode, Commands, DecodeAll;
      var m, rest := ms[0], EncodeAll(ms[1..], long) + tail;
      assert ms == [m] + ms[1..];
      EncodeAllFirst(m, ms[1..], long);
      assert EncodeAll(ms, long) + tail == Encode(m, long) + rest;
      PlaysFirst(m, rest, long);
      PlaysWhole(ms[1..], tail, long);
    }
  }

  lemma Regrouped(a: seq<byte>, b: seq<byte>, c: seq<byte>)
    ensures a + b + c == a + (b + c)
  {
  }

  /** Whole bytes in front are those of the command read from them. */
  lemma DecodedFront(front: seq<byte>, back: seq<byte>, long: bool)
    requires |front| == Width(long) && front[0] != DEMOMARKER
    ensures var m := Decode(front + back, long); Encode(m, long) == front && Playable(m, long)
  {
    hide Encode, Decode, Recorded;
    DecodeIgnoresRest(front, back, long);
    BytesRoundTrip(front, long);
    var m := Decode(front, long);
    CodecRoundTrip(m, long);
  }

  /** Every sequence of bytes is of that kind. */
  lemma {:induction false} AllBytesPlay(s: seq<byte>, long: bool) returns (tail: seq<byte>)
    ensures s == EncodeAll(Commands(s, long), long) + tail && Ending(tail, long)
    ensures forall m :: m in Commands(s, long) ==> Playable(m, long)
    decreases |s|
  {
    if s == [] || s[0] == DEMOMARKER || |s| < Width(long) {
      tail := s;
      assert [] + s == s;
    } else {
      hide Encode, Decode, EncodeAll, Playable, Recorded;
      var front, back := s[..Width(long)], s[Width(long)..];
      var m, rest := Decode(s, long), Commands(back, long);
      tail := AllBytesPlay(back, long);
      assert s == front + back;
      DecodedFront(front, back, long);
      EncodeAllFirst(m, rest, long);
      Regrouped(front, EncodeAll(rest, long), tail);
    }
  }
}
