/** Bytes, little-endian integers and overwriting part of a byte sequence. */
module Bytes {

  type byte = x: int | 0 <= x < 256

  /** The number of 64-bit values: `uint64_t` arithmetic wraps here. */
  const WORD: nat := 0x1_0000_0000_0000_0000

  /** `uint64_t` wrap-around, with the common case first. */
  function Wrap(n: nat): (w: nat)
    ensures w < WORD
  {
    if n < WORD then n else n % WORD
  }

  datatype Option<+T> = None | Some(value: T)

  /** `width` bytes of `n`, least significant first; higher bytes are cut off as a C store does. */
  function LittleEndian(n: nat, width: nat): (s: seq<byte>)
    ensures |s| == width
  {
    if width == 0 then [] else [n % 256] + LittleEndian(n / 256, width - 1)
  }

  function FromLittleEndian(s: seq<byte>): (n: nat)
  {
    if s == [] then 0 else s[0] + 256 * FromLittleEndian(s[1..])
  }

  function Pow256(k: nat): (p: nat)
    ensures p > 0
  {
    if k == 0 then 1 else 256 * Pow256(k - 1)
  }

  lemma Pow256Values()
    ensures Pow256(1) == 256 && Pow256(2) == 65536 && Pow256(4) == 0x1_0000_0000 && Pow256(8) == WORD
  {
  }

  lemma {:induction false} DivBound(n: nat, p: nat)
    requires n < 256 * p
    ensures n / 256 < p
  {
  }

  /** Storing a number that fits and reading it back gives the number. */
  lemma {:induction false} LittleEndianRoundTrip(n: nat, width: nat)
    requires n < Pow256(width)
    ensures FromLittleEndian(LittleEndian(n, width)) == n
  {
    if width > 0 {
      DivBound(n, Pow256(width - 1));
      LittleEndianRoundTrip(n / 256, width - 1);
      assert LittleEndian(n, width)[1..] == LittleEndian(n / 256, width - 1);
    }
  }

  lemma {:induction false} FromLittleEndianBound(s: seq<byte>)
    ensures FromLittleEndian(s) < Pow256(|s|)
  {
    if s != [] {
      FromLittleEndianBound(s[1..]);
    }
  }

  /** Reading bytes as a number and storing it back gives the bytes. */
  lemma {:induction false} FromLittleEndianRoundTrip(s: seq<byte>)
    ensures LittleEndian(FromLittleEndian(s), |s|) == s
  {
    if s != [] {
      FromLittleEndianRoundTrip(s[1..]);
      var n, m := FromLittleEndian(s), FromLittleEndian(s[1..]);
      assert n == s[0] + 256 * m;
      assert n % 256 == s[0] && n / 256 == m;
    }
  }

  lemma WrapIsRemainder(n: nat)
    ensures Wrap(n) == n % WORD
  {
  }

  /** The number whose base-256 digits are these, the lowest first. */
  function Number4(a: int, b: int, c: int, d: int): int {
    a + 0x100 * b + 0x1_0000 * c + 0x100_0000 * d
  }

  /** The two, four or eight bytes of a number lie on the disk in this order, the lowest first. */
  lemma NumberOfBytes(s: seq<byte>)
    ensures |s| == 2 ==> FromLittleEndian(s) == Number4(s[0], s[1], 0, 0)
    ensures |s| == 4 ==> FromLittleEndian(s) == Number4(s[0], s[1], s[2], s[3])
    ensures |s| == 8 ==>
      FromLittleEndian(s) == Number4(s[0], s[1], s[2], s[3]) + 0x1_0000_0000 * Number4(s[4], s[5], s[6], s[7])
  {
    if |s| == 2 {
      TwoBytes(s);
    } else if |s| == 4 {
      FourBytes(s);
    } else if |s| == 8 {
      FourTail(s);
      FourBytes(s[4..]);
    }
  }

  lemma TwoBytes(s: seq<byte>)
    requires |s| == 2
    ensures FromLittleEndian(s) == Number4(s[0], s[1], 0, 0)
  {
    assert FromLittleEndian(s[1..]) == s[1];
  }

  lemma FourBytes(s: seq<byte>)
    requires |s| == 4
    ensures FromLittleEndian(s) == Number4(s[0], s[1], s[2], s[3])
  {
    assert s[1..][1..] == s[2..];
    TwoBytes(s[2..]);
  }

  lemma FourTail(s: seq<byte>)
    requires |s| == 8
    ensures FromLittleEndian(s) == Number4(s[0], s[1], s[2], s[3]) + 0x1_0000_0000 * FromLittleEndian(s[4..])
  {
    assert s[1..][1..] == s[2..];
    assert s[2..][1..] == s[3..];
    assert s[3..][1..] == s[4..];
    var a := FromLittleEndian(s[3..]);
    assert a == s[3] + 256 * FromLittleEndian(s[4..]);
    var b := FromLittleEndian(s[2..]);
    assert b == s[2] + 256 * a;
  }

  lemma Number4Bound(a: byte, b: byte, c: byte, d: byte)
    ensures 0 <= Number4(a, b, c, d) < 0x1_0000_0000
    ensures Number4(a, b, c, d) == 0 <==> a == b == c == d == 0
  {
  }

  lemma NumberInWord(s: seq<byte>)
    requires |s| == 8
    ensures FromLittleEndian(s) < 0x1_0000_0000 <==> s[4] == s[5] == s[6] == s[7] == 0
    ensures FromLittleEndian(s) < 0x1_0000_0000 ==> FromLittleEndian(s) == FromLittleEndian(s[..4])
  {
    hide FromLittleEndian, Number4;
    NumberOfBytes(s);
    NumberOfBytes(s[..4]);
    Number4Bound(s[0], s[1], s[2], s[3]);
    Number4Bound(s[4], s[5], s[6], s[7]);
  }

  /** A number stored in four bytes: its digits in that order, as far as there is room. */
  lemma StoredFour(n: nat)
    ensures LittleEndian(n, 4) == [n % 0x100, n / 0x100 % 0x100, n / 0x1_0000 % 0x100, n / 0x100_0000 % 0x100]
  {
    var a, b, c := n / 0x100, n / 0x1_0000, n / 0x100_0000;
    assert a / 0x100 == b && b / 0x100 == c;
    assert LittleEndian(c, 1) == [c % 0x100] + [];
    assert LittleEndian(b, 2) == [b % 0x100] + LittleEndian(c, 1);
    assert LittleEndian(a, 3) == [a % 0x100] + LittleEndian(b, 2);
  }

  lemma SameBytes(s: seq<byte>, t: seq<byte>)
    requires |s| == |t|
    ensures FromLittleEndian(s) == FromLittleEndian(t) <==> s == t
  {
    FromLittleEndianRoundTrip(s);
    FromLittleEndianRoundTrip(t);
  }

  /** `disk` with the bytes from `loc` on replaced by `data`; bytes outside `disk` are dropped. */
  function Overwrite(disk: seq<byte>, loc: nat, data: seq<byte>): (r: seq<byte>)
    ensures |r| == |disk|
    ensures forall i :: 0 <= i < |r| ==> r[i] == if loc <= i < loc + |data| then data[i - loc] else disk[i]
  {
    seq(|disk|, i requires 0 <= i < |disk| => if loc <= i < loc + |data| then data[i - loc] else disk[i])
  }
}
