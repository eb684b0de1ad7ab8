/** The end of `G_BuildTiccmd`: movement is clamped, and turns are rounded for demos of one byte a turn. */
module Turning {
  import opened Ticcmds
  import opened DemoFormat

  // ---------- rounding turns ----------

  /** `& 0xff00` on a two's complement integer. */
  function Mask(x: int): int {
    x / 256 % 256 * 256
  }

  function Desired(angleturn: short, carry: short): short {
    ToShort(angleturn + carry)
  }

  function Rounded(desired: short): short {
    ToShort(Mask(desired + 128))
  }

  function Carried(desired: short): short {
    ToShort(desired - Rounded(desired))
  }

  /** The rounded turn fits the short format, the error stays small, and nothing is lost modulo a full turn. */
  lemma RoundingKept(angleturn: short, carry: short)
    ensures var d := Desired(angleturn, carry);
      && Rounded(d) % 256 == 0 && -128 <= Carried(d) <= 127
      && (Rounded(d) + Carried(d) - (angleturn + carry)) % 0x1_0000 == 0
      && (-0x8000 <= angleturn + carry <= 0x7F7F ==> Rounded(d) + Carried(d) == angleturn + carry)
  {
    var d: int := Desired(angleturn, carry);
    RoundedParts(d);
    assert d == angleturn + carry || d == angleturn + carry + 0x1_0000 || d == angleturn + carry - 0x1_0000;
  }

  lemma RoundedParts(d: short)
    ensures var q, r := (d + 128) / 256, (d + 128) % 256;
      Rounded(d) == (if q == 128 then -0x8000 else 256 * q) && Carried(d) == r - 128
  {
    var q, r := (d + 128) / 256, (d + 128) % 256;
    assert -128 <= q <= 128;
    assert Mask(d + 128) == if q >= 0 then 256 * q else 256 * (q + 256);
    assert d - Rounded(d) == if q == 128 then r - 128 + 0x1_0000 else r - 128;
  }

  function Sum(s: seq<short>): int {
    if s == [] then 0 else Sum(s[..|s| - 1]) + s[|s| - 1]
  }

  lemma ModSum(x: int, y: int)
    requires x % 0x1_0000 == 0 && y % 0x1_0000 == 0
    ensures (x + y) % 0x1_0000 == 0
  {
  }

  /** The turns given differ from those asked for by the carry alone, up to full turns. */
  ghost predicate OnlyCarried(asked: seq<short>, given: seq<short>, carry: int) {
    |asked| == |given| && (Sum(given) + carry - Sum(asked)) % 0x1_0000 == 0
  }

  lemma SumMore(s: seq<short>, x: short)
    ensures Sum(s + [x]) == Sum(s) + x
  {
  }

  lemma RoundKeeps(asked: seq<short>, given: seq<short>, carry: short, angleturn: short)
    requires OnlyCarried(asked, given, carry)
    ensures var d := Desired(angleturn, carry);
      OnlyCarried(asked + [angleturn], given + [Rounded(d)], Carried(d))
  {
    hide Desired, Rounded, Carried, Sum;
    var d := Desired(angleturn, carry);
    RoundingKept(angleturn, carry);
    SumMore(asked, angleturn);
    SumMore(given, Rounded(d));
    ModSum(Sum(given) + carry - Sum(asked), Rounded(d) + Carried(d) - (angleturn + carry));
  }

  /** The static `carry` of `G_BuildTiccmd`. */
  class Rounder {
    var carry: short
    /** All turns asked for, and all turns given. */
    ghost var asked: seq<short>
    ghost var given: seq<short>

    ghost predicate Valid()
      reads this
    {
      && -128 <= carry <= 127 && OnlyCarried(asked, given, carry)
      && forall i :: 0 <= i < |given| ==> given[i] % 256 == 0
    }

    constructor ()
      ensures Valid() && asked == [] == given && carry == 0
    {
      carry, asked, given := 0, [], [];
    }

    method Round(angleturn: short) returns (turn: short)
      requires Valid()
      modifies this
      ensures Valid() && asked == old(asked) + [angleturn] && given == old(given) + [turn]
      ensures -0x8000 <= old(carry) + angleturn <= 0x7F7F ==> turn + carry == old(carry) + angleturn
    {
      hide DemoFormat.ToShort, Mask, Sum, OnlyCarried;
      RoundingKept(angleturn, carry);
      RoundKeeps(asked, given, carry, angleturn);
      var desired: short := ToShort(angleturn + carry);
      turn := ToShort(Mask(desired + 128));
      carry := ToShort(desired - turn);
      asked, given := asked + [angleturn], given + [turn];
    }
  }

  // ---------- clamping movement ----------

  function Clamped(move: int, limit: int): int {
    if move > limit then limit else if move < -limit then -limit else move
  }

  /** Adding an integer to a `signed char` that is zero. */
  function ToSChar(x: int): sbyte {
    (x + 128) % 256 - 128
  }

  /** A move within the limit is stored as it is, and any other as the limit on its side. */
  predicate StoredMove(move: int, limit: int, stored: int) {
    && (-limit <= move <= limit ==> stored == move)
    && (move > limit ==> stored == limit) && (move < -limit ==> stored == -limit)
  }

  method BuildMove(forward: int, side: int, limit: int) returns (forwardmove: sbyte, sidemove: sbyte)
    ensures forwardmove == ToSChar(Clamped(forward, limit)) && sidemove == ToSChar(Clamped(side, limit))
    ensures 0 <= limit < 128 ==> forwardmove != -128 && -limit <= forwardmove <= limit && -limit <= sidemove <= limit
    ensures 0 <= limit < 128 ==> StoredMove(forward, limit, forwardmove) && StoredMove(side, limit, sidemove)
  {
    var f, s := forward, side;
    if f > limit {
      f := limit;
    } else if f < -limit {
      f := -limit;
    }
    if s > limit {
      s := limit;
    } else if s < -limit {
      s := -limit;
    }
    forwardmove, sidemove := ToSChar(0 + f), ToSChar(0 + s);
  }

  /** `forwardmove[1]` after `-turbo` */
  function TurboLimit(scale: nat): nat {
    0x32 * scale / 100
  }

  /** A forward move can be stored as the end-of-demo marker exactly from a turbo scale of 256 on. */
  lemma MarkerExactly(scale: nat)
    requires 10 <= scale <= 400
    ensures (exists forward: int :: ToSChar(Clamped(forward, TurboLimit(scale))) == -128) <==> scale >= 256
  {
    if scale >= 256 {
      assert ToSChar(Clamped(128, TurboLimit(scale))) == -128;
    }
  }
}
