/** The other wipe: every byte of the screen moves towards the end screen. */
module ColorFade {
  import opened Bytes

  /** A byte after `ticks` towards `e`. */
  function Approach(w: byte, e: byte, ticks: nat): byte {
    if w > e then (if w - ticks < e then e else w - ticks)
    else (if w + ticks > e then e else w + ticks)
  }

  function Distance(w: byte, e: byte): nat {
    if w > e then w - e else e - w
  }

  /** The distance shrinks by exactly the ticks, never past the end screen, however they are split up. */
  lemma ApproachExactly(w: byte, e: byte, s: nat, t: nat)
    ensures Approach(Approach(w, e, s), e, t) == Approach(w, e, s + t)
    ensures Distance(Approach(w, e, s), e) == if s > Distance(w, e) then 0 else Distance(w, e) - s
    ensures Approach(w, e, s) == e <==> s >= Distance(w, e)
    ensures (w <= e ==> w <= Approach(w, e, s) <= e) && (e <= w ==> e <= Approach(w, e, s) <= w)
  {
  }

  /** `wipe_doColorXForm`: reports the end exactly if the screens were equal on entry. */
  method DoColorXForm(scr: array<byte>, end: array<byte>, ticks: nat) returns (done: bool)
    requires scr.Length == end.Length && scr != end
    modifies scr
    ensures forall i :: 0 <= i < scr.Length ==> scr[i] == Approach(old(scr[i]), end[i], ticks)
    ensures done == (old(scr[..]) == end[..])
  {
    var changed, w := false, 0;
    while w < scr.Length
      invariant 0 <= w <= scr.Length
      invariant forall i :: 0 <= i < scr.Length ==>
        scr[i] == if i < w then Approach(old(scr[i]), end[i], ticks) else old(scr[i])
      invariant changed == exists i :: 0 <= i < w && old(scr[i]) != end[i]
    {
      var now, goal: int := scr[w], end[w];
      if now != goal {
        if now > goal {
          scr[w] := if now - ticks < goal then goal else now - ticks;
        } else {
          scr[w] := if now + ticks > goal then goal else now + ticks;
        }
        changed := true;
      }
      w := w + 1;
    }
    done := !changed;
  }

  // ---------- a whole fade ----------

  function Sum(ticks: seq<nat>): nat {
    if ticks == [] then 0 else Sum(ticks[..|ticks| - 1]) + ticks[|ticks| - 1]
  }

  lemma {:induction false} SumGrows(ticks: seq<nat>, k: nat)
    requires k <= |ticks|
    ensures Sum(ticks[..k]) <= Sum(ticks)
    decreases |ticks|
  {
    if k < |ticks| {
      SumGrows(ticks[..|ticks| - 1], k);
      assert ticks[..|ticks| - 1][..k] == ticks[..k];
    } else {
      assert ticks[..k] == ticks;
    }
  }

  /** The screen after `ticks` in all. */
  function Faded(s: seq<byte>, end: seq<byte>, ticks: nat): (r: seq<byte>)
    requires |s| == |end|
    ensures |r| == |s|
  {
    seq(|s|, i requires 0 <= i < |s| => Approach(s[i], end[i], ticks))
  }

  lemma FadedMore(s: seq<byte>, end: seq<byte>, m: nat, n: nat)
    requires |s| == |end|
    ensures Faded(Faded(s, end, m), end, n) == Faded(s, end, m + n)
  {
    forall i | 0 <= i < |s| ensures Faded(Faded(s, end, m), end, n)[i] == Faded(s, end, m + n)[i] {
      ApproachExactly(s[i], end[i], m, n);
    }
  }

  /** The end screen stands exactly when the ticks were enough for the byte with the longest way. */
  lemma FadedExactly(s: seq<byte>, end: seq<byte>, ticks: nat)
    requires |s| == |end|
    ensures Faded(s, end, ticks) == end <==> forall i :: 0 <= i < |s| ==> Distance(s[i], end[i]) <= ticks
  {
    forall i | 0 <= i < |s| ensures Faded(s, end, ticks)[i] == end[i] <==> Distance(s[i], end[i]) <= ticks {
      ApproachExactly(s[i], end[i], ticks, 0);
    }
  }

  /** A fade once complete stays so. */
  lemma FadedStays(s: seq<byte>, end: seq<byte>, m: nat, n: nat)
    requires |s| == |end| && Faded(s, end, m) == end && m <= n
    ensures Faded(s, end, n) == end
  {
    FadedExactly(s, end, m);
    FadedExactly(s, end, n);
  }

  /** Calls with the given ticks, one by one, until one reports the end: the screen has faded by the ticks of
      the calls made, and the end is reported exactly if the calls before the last one were enough. */
  method Fade(scr: array<byte>, end: array<byte>, ticks: seq<nat>) returns (done: bool, calls: nat)
    requires scr.Length == end.Length && scr != end
    modifies scr
    ensures calls <= |ticks| && scr[..] == Faded(old(scr[..]), end[..], Sum(ticks[..calls]))
    ensures if done then scr[..] == end[..] else calls == |ticks|
    ensures done <==> ticks != [] && Faded(old(scr[..]), end[..], Sum(ticks[..|ticks| - 1])) == end[..]
    ensures ticks != [] && Sum(ticks[..|ticks| - 1]) >= 255 ==> done
  {
    ghost var s, e := scr[..], end[..];
    done, calls := false, 0;
    assert Faded(s, e, 0) == s;
    while calls < |ticks| && !done
      invariant calls <= |ticks| && scr[..] == Faded(s, e, Sum(ticks[..calls])) && end[..] == e
      invariant done ==> 0 < calls && Faded(s, e, Sum(ticks[..calls - 1])) == e && scr[..] == e
      invariant !done && 0 < calls ==> Faded(s, e, Sum(ticks[..calls - 1])) != e
    {
      ghost var before := Sum(ticks[..calls]);
      FadedMore(s, e, before, ticks[calls]);
      assert ticks[..calls + 1][..calls] == ticks[..calls];
      done := DoColorXForm(scr, end, ticks[calls]);
      assert scr[..] == Faded(Faded(s, e, before), e, ticks[calls]);
      if done {
        FadedStays(s, e, before, before + ticks[calls]);
      }
      calls := calls + 1;
      assert ticks[..calls][..calls - 1] == ticks[..calls - 1];
    }
    if done {
      SumGrows(ticks[..|ticks| - 1], calls - 1);
      assert ticks[..|ticks| - 1][..calls - 1] == ticks[..calls - 1];
      FadedStays(s, e, Sum(ticks[..calls - 1]), Sum(ticks[..|ticks| - 1]));
    }
    if ticks != [] {
      FadedExactly(s, e, Sum(ticks[..|ticks| - 1]));
    }
  }
}
