/** Keys of the chat by their codes: what each does to a line, and what an event means. */
module ChatKeys {
  import opened Bytes
  import opened ChatLine
  import opened Chat

  /** Small letters are stored as capitals; from the blank to `_` everything else as it is, up to 80 characters; 127 takes
      the last character away; and nothing else changes the text. */
  lemma TypedExactly(text: seq<byte>, c: byte)
    requires |text| <= 80
    ensures Typed(text, 0, c)
         == if 97 <= c <= 122 && |text| < 80 then text + [c - 32]
            else if 32 <= c <= 95 && |text| < 80 then text + [c]
            else if c == 127 && 0 < |text| then text[..|text| - 1]
            else text
  {
  }

  /** The characters from 0 to 5 and from 128 on are destinations, 13 ends a line, and all others are typed. */
  lemma HearExactly(h: Heard, c: byte)
    ensures c <= 5 || 128 <= c ==> Hear(h, c) == Heard(c, h.text, h.lines)
    ensures c == 13 ==> Hear(h, c) == Heard(h.dest, [], h.lines + [Line(h.dest, h.text)])
    ensures 5 < c < 128 && c != 13 ==> Hear(h, c) == Heard(h.dest, Typed(h.text, 0, c), h.lines)
  {
    hide Typed;
  }

  lemma HearNext(s: seq<byte>, c: byte, t: seq<byte>)
    requires t == s + [c]
    ensures HearAll(t) == Hear(HearAll(s), c)
  {
    HearMore(s, c);
  }

  /** A line to everybody in small letters, one of them taken back, and Enter. */
  lemma SmallLine()
    ensures HearAll([5, 104, 120, 127, 105, 13]) == Heard(5, [], [Line(5, [72, 73])])
  {
    hide HearAll;
    var s: seq<byte> := [5, 104, 120, 127, 105, 13];
    NothingHeard(s[..0]);
    HearNext(s[..0], 5, s[..1]);
    HearNext(s[..1], 104, s[..2]);
    assert HearAll(s[..2]) == Heard(5, [72], []);
    HearNext(s[..2], 120, s[..3]);
    assert HearAll(s[..3]) == Heard(5, [72, 88], []);
    HearNext(s[..3], 127, s[..4]);
    assert [72, 88][..1] == [72];
    HearNext(s[..4], 105, s[..5]);
    assert HearAll(s[..5]) == Heard(5, [72, 73], []);
    HearNext(s[..5], 13, s);
    assert [] + [Line(5, [72, 73])] == [Line(5, [72, 73])];
  }

  lemma NothingHeard(s: seq<byte>)
    requires s == []
    ensures HearAll(s) == SILENCE
  {
  }

  // ---------- what an event means ----------

  /** The key calls player `k`, who is in the game and somebody else. */
  predicate Calls(s: Setup, data2: nat, k: nat)
    requires GoodSetup(s) && k < 4
  {
    data2 == s.keyMultiMsgPlayer[k] && s.playeringame[k] && k != s.consoleplayer
  }

  /** The key calls player `k` and no one before him. */
  predicate CallsFirst(s: Setup, data2: nat, k: nat)
    requires GoodSetup(s)
  {
    k < 4 && Calls(s, data2, k) && forall j: nat :: j < k ==> !Calls(s, data2, j)
  }

  lemma {:induction false} AddressedFrom(s: Setup, data2: nat, i: nat)
    requires GoodSetup(s) && i <= 4
    ensures var to := Addressed(s, data2, i);
      && (to.None? ==> forall j: nat :: i <= j < 4 ==> !Calls(s, data2, j))
      && (to.Some? ==> i <= to.value - 1 < 4 && Calls(s, data2, to.value - 1)
                       && forall j: nat :: i <= j < to.value - 1 ==> !Calls(s, data2, j))
    decreases 4 - i
  {
    if i < 4 {
      AddressedFrom(s, data2, i + 1);
    }
  }

  /** Somebody is addressed exactly if the key calls him and no one with a smaller number. */
  lemma AddressedExactly(s: Setup, data2: nat, k: nat)
    requires GoodSetup(s)
    ensures (Addressed(s, data2, 0).Some? && Addressed(s, data2, 0).value == k + 1) <==> CallsFirst(s, data2, k)
  {
    AddressedFrom(s, data2, 0);
  }

  /** More than two players. */
  predicate Several(s: Setup)
    requires GoodSetup(s)
  {
    exists i, j, k :: 0 <= i < j < k < 4 && s.playeringame[i] && s.playeringame[j] && s.playeringame[k]
  }

  lemma PlayersExactly(s: Setup)
    requires GoodSetup(s)
    ensures CountPlayers(s.playeringame, 4) > 2 <==> Several(s)
  {
    var p := s.playeringame;
    var n0, n1, n2, n3 := if p[0] then 1 else 0, if p[1] then 1 else 0, if p[2] then 1 else 0, if p[3] then 1 else 0;
    assert CountPlayers(p, 2) == n0 + n1 by {
      assert CountPlayers(p, 1) == n0;
    }
    assert CountPlayers(p, 4) == CountPlayers(p, 2) + n2 + n3;
    if n0 + n1 + n2 + n3 > 2 {
      if p[0] && p[1] && p[2] {
      } else if p[0] && p[1] && p[3] {
      } else if p[0] && p[2] && p[3] {
      } else {
        assert p[1] && p[2] && p[3];
      }
    }
  }

  /** A key that goes down and is neither Shift (182) nor Alt (184). */
  predicate Pressed(e: Event) {
    e.down && e.data1 != 182 && e.data1 != 184
  }

  /** Alt follows its key; the refresh key works outside of a line; inside, keys are typed, and with Alt the digits are
      macros. */
  lemma KeysExactly(s: Setup, chatOn: bool, altDown: bool, e: Event)
    requires GoodSetup(s)
    ensures var a := ActionFor(s, chatOn, altDown, e);
      && (forall held :: a == Alt(held) <==> e.data1 == 184 && held == e.down)
      && (a == Refresh <==> Pressed(e) && !chatOn && e.data1 == s.keyMessageRefresh)
      && (forall c :: a == Type(c) <==> Pressed(e) && chatOn && !altDown && c == e.data2 % 256)
      && (forall n: nat :: a == Macro(n) <==> Pressed(e) && chatOn && altDown && n <= 9 && e.data1 % 256 == 48 + n)
  {
  }

  /** Whom a line is opened to: everybody, or with more than two players the first one the key calls. */
  lemma OpensExactly(s: Setup, altDown: bool, e: Event, to: byte)
    requires GoodSetup(s)
    ensures ActionFor(s, true, altDown, e) != OpenTo(to)
    ensures ActionFor(s, false, altDown, e) == OpenTo(to)
      <==> && Pressed(e) && e.data1 != s.keyMessageRefresh && s.netgame
           && if e.data2 == s.keyMultiMsg then to == 5 else Several(s) && 1 <= to && CallsFirst(s, e.data2, to - 1)
  {
    hide Several, CallsFirst, Addressed, CountPlayers;
    PlayersExactly(s);
    if 1 <= to {
      AddressedExactly(s, e.data2, to - 1);
    }
  }

  /** An event goes no further exactly if it refreshes the message, opens a line, sends a macro or types a key that is
      stored, takes a character away or ends the line. */
  lemma EatenExactly(a: Action)
    ensures EatsEvent(a)
            <==> || a.Refresh? || a.OpenTo? || a.Macro?
                 || (a.Type? && (32 <= a.c <= 95 || 97 <= a.c <= 122 || a.c == 127 || a.c == 13))
  {
  }
}
