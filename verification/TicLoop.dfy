/** The tic scheduler in its single-player configuration: commands are built at the pace of the clock
    into a ring, and run from it, each `ticdup` times. */
module TicLoop {
  import opened Bytes
  import opened CArith
  import opened Ticcmds
  import Blocks

  const BACKUPTICS: nat := 128
  const NET_MAXPLAYERS: nat := 8

  datatype TicSet = TicSet(cmds: seq<Ticcmd>, ingame: seq<bool>)

  predicate Full(s: TicSet) {
    |s.cmds| == NET_MAXPLAYERS && |s.ingame| == NET_MAXPLAYERS
  }

  /** What is left of a command when it is run again. */
  function Squash(c: Ticcmd): Ticcmd {
    c.(chatchar := 0, buttons := if Special(c) then 0 else c.buttons)
  }

  // ---------- what should be run ----------

  /** The first `i` runs of one command. */
  function Copies(c: Ticcmd, i: nat): (r: seq<Ticcmd>)
    ensures |r| == i
  {
    if i == 0 then [] else Copies(c, i - 1) + [if i == 1 then c else Squash(c)]
  }

  /** The commands given for the first `n` tics. */
  function Built(player: nat -> Ticcmd, n: nat): (r: seq<Ticcmd>)
    ensures |r| == n
  {
    if n == 0 then [] else Built(player, n - 1) + [player(n - 1)]
  }

  /** The commands run for the first `n` tics. */
  function Expand(player: nat -> Ticcmd, n: nat, dup: nat): (r: seq<Ticcmd>)
    ensures |r| == Blocks.BlockStart(n, dup)
  {
    if n == 0 then [] else Expand(player, n - 1, dup) + Copies(player(n - 1), dup)
  }

  lemma ExpandMore(player: nat -> Ticcmd, n: nat, dup: nat)
    ensures Expand(player, n + 1, dup) == Expand(player, n, dup) + Copies(player(n), dup)
    ensures Blocks.BlockStart(n + 1, dup) == Blocks.BlockStart(n, dup) + dup
  {
  }

  /** The nonzero values of `f` in order. */
  function Nonzero(s: seq<Ticcmd>, f: Ticcmd -> byte): seq<byte> {
    if s == [] then []
    else Nonzero(s[..|s| - 1], f) + if f(s[|s| - 1]) != 0 then [f(s[|s| - 1])] else []
  }

  lemma {:induction false} NonzeroConcat(s: seq<Ticcmd>, t: seq<Ticcmd>, f: Ticcmd -> byte)
    ensures Nonzero(s + t, f) == Nonzero(s, f) + Nonzero(t, f)
  {
    if t == [] {
      assert s + t == s;
    } else {
      assert (s + t)[..|s + t| - 1] == s + t[..|t| - 1];
      NonzeroConcat(s, t[..|t| - 1], f);
    }
  }

  lemma {:induction false} NonzeroCopies(c: Ticcmd, i: nat, f: Ticcmd -> byte)
    requires i >= 1 && f(Squash(c)) == 0
    ensures Nonzero(Copies(c, i), f) == Nonzero([c], f)
  {
    if i == 1 {
      assert Copies(c, 1) == [c];
    } else {
      NonzeroCopies(c, i - 1, f);
      NonzeroConcat(Copies(c, i - 1), [Squash(c)], f);
      assert Nonzero([Squash(c)], f) == [];
    }
  }

  /** A part of the command that does not survive squashing reaches the game exactly once for every
      command built, and in order. */
  lemma {:induction false} DeliveredOnce(player: nat -> Ticcmd, n: nat, dup: nat, f: Ticcmd -> byte)
    requires dup >= 1 && forall c :: f(Squash(c)) == 0
    ensures Nonzero(Expand(player, n, dup), f) == Nonzero(Built(player, n), f)
  {
    if n > 0 {
      DeliveredOnce(player, n - 1, dup, f);
      NonzeroConcat(Expand(player, n - 1, dup), Copies(player(n - 1), dup), f);
      NonzeroCopies(player(n - 1), dup, f);
      NonzeroConcat(Built(player, n - 1), [player(n - 1)], f);
    }
  }

  function ChatOf(c: Ticcmd): byte {
    c.chatchar
  }

  function SpecialOf(c: Ticcmd): byte {
    if Special(c) then c.buttons else 0
  }

  lemma ChatAndSpecialOnce(player: nat -> Ticcmd, n: nat, dup: nat)
    requires dup >= 1
    ensures Nonzero(Expand(player, n, dup), ChatOf) == Nonzero(Built(player, n), ChatOf)
    ensures Nonzero(Expand(player, n, dup), SpecialOf) == Nonzero(Built(player, n), SpecialOf)
  {
    DeliveredOnce(player, n, dup, ChatOf);
    DeliveredOnce(player, n, dup, SpecialOf);
  }

  lemma {:induction false} CopiesAt(c: Ticcmd, i: nat, j: nat)
    requires j < i
    ensures Copies(c, i)[j] == if j == 0 then c else Squash(c)
  {
    if j < i - 1 {
      CopiesAt(c, i - 1, j);
    }
  }

  /** Run `j` of tic `k`: movement, consistancy check and ordinary buttons are there all `dup` times, and only the first
      run has the chat character and special buttons, those with the highest bit. */
  lemma {:induction false} DeliveredEach(player: nat -> Ticcmd, n: nat, dup: nat, k: nat, j: nat)
    requires k < n && j < dup
    ensures Blocks.BlockStart(k, dup) + j < |Expand(player, n, dup)|
    ensures var r := Expand(player, n, dup)[Blocks.BlockStart(k, dup) + j]; var c := player(k);
      && r == (if j == 0 then c else Squash(c))
      && r.forwardmove == c.forwardmove && r.sidemove == c.sidemove && r.angleturn == c.angleturn
      && (!Special(c) ==> r.buttons == c.buttons)
      && (j > 0 ==> r == c.(chatchar := 0, buttons := if c.buttons >= 0x80 then 0 else c.buttons))
  {
    if k < n - 1 {
      DeliveredEach(player, n - 1, dup, k, j);
    } else {
      CopiesAt(player(k), dup, j);
    }
  }

  // ---------- the ring ----------

  function OnlyLocal(local: nat): seq<bool> {
    seq(NET_MAXPLAYERS, i => i == local)
  }

  /** A run of a tic that shows the local player alone. */
  predicate Solo(s: TicSet, local: nat) {
    Full(s) && s.ingame == OnlyLocal(local)
  }

  lemma SoloExactly(s: TicSet, local: nat, i: nat)
    requires Solo(s, local) && i < 8
    ensures |s.ingame| == 8 == |s.cmds| && (s.ingame[i] <==> i == local)
  {
  }

  ghost predicate Alone(ran: seq<TicSet>, local: nat) {
    forall i :: 0 <= i < |ran| ==> Solo(ran[i], local)
  }

  /** The commands of one player in a list of runs. */
  function LocalCmds(ran: seq<TicSet>, local: nat): (r: seq<Ticcmd>)
    requires local < NET_MAXPLAYERS && Alone(ran, local)
    ensures |r| == |ran|
  {
    if ran == [] then []
    else LocalCmds(ran[..|ran| - 1], local) + [ran[|ran| - 1].cmds[local]]
  }

  lemma LocalCmdsPush(ran: seq<TicSet>, s: TicSet, local: nat)
    requires local < NET_MAXPLAYERS && Alone(ran, local) && Solo(s, local)
    ensures Alone(ran + [s], local)
    ensures LocalCmds(ran + [s], local) == LocalCmds(ran, local) + [s.cmds[local]]
  {
  }

  predicate Holds(s: TicSet, c: Ticcmd, local: nat) {
    Full(s) && local < NET_MAXPLAYERS && s.cmds[local] == c && s.ingame[local]
  }

  /** The slots of the tics from `lo` up to `hi` hold the local player's commands for those tics. */
  ghost predicate Queued(ring: seq<TicSet>, player: nat -> Ticcmd, local: nat, lo: nat, hi: nat) {
    && |ring| == BACKUPTICS && lo <= hi < lo + BACKUPTICS
    && (forall i :: 0 <= i < BACKUPTICS ==> Full(ring[i]))
    && forall n: nat {:trigger player(n)} :: lo <= n < hi ==> Holds(ring[n % BACKUPTICS], player(n), local)
  }

  lemma QueuePush(ring: seq<TicSet>, player: nat -> Ticcmd, local: nat, lo: nat, hi: nat, s: TicSet)
    requires Queued(ring, player, local, lo, hi) && hi + 1 < lo + BACKUPTICS && Holds(s, player(hi), local)
    ensures Queued(ring[hi % BACKUPTICS := s], player, local, lo, hi + 1)
  {
  }

  /** Changing the slot of the tic that has just been run disturbs none of those still to be run. */
  lemma QueuePop(ring: seq<TicSet>, player: nat -> Ticcmd, local: nat, lo: nat, hi: nat, s: TicSet)
    requires Queued(ring, player, local, lo, hi) && lo < hi && Full(s)
    ensures Queued(ring[lo % BACKUPTICS := s], player, local, lo + 1, hi)
  {
  }

  function Max(x: int, y: int): int {
    if x < y then y else x
  }

  function Min(x: int, y: int): int {
    if x < y then x else y
  }

  datatype Outcome = Completed | MenuOnly | StillWaiting | Failed

  class Loop {
    const ticdup: nat
    const newSync: bool
    const singletics: bool
    const localplayer: nat
    /** The command `BuildTiccmd` gives for each tic. */
    const player: nat -> Ticcmd
    /** The value of each clock reading, in tics. */
    const clock: nat -> int

    var readings: nat
    var maketic: nat
    var gametic: nat
    var lasttime: int
    var skiptics: nat
    var oldentertics: int
    const ticdata: array<TicSet>
    var localPlayeringame: seq<bool>

    /** The tics that have been run completely. */
    ghost var done: nat
    /** Everything `RunTic` was called with. */
    ghost var ran: seq<TicSet>

    /** How far building may get ahead of running. */
    function Limit(): nat {
      if newSync then 3 else 5
    }

    ghost predicate Configured() {
      ticdup >= 1 && localplayer < NET_MAXPLAYERS && ticdata.Length == BACKUPTICS
    }

    ghost predicate History()
      reads this`done, this`ran
      requires Configured()
    {
      && Alone(ran, localplayer)
      && LocalCmds(ran, localplayer) == Expand(player, done, ticdup)
    }

    /** What holds between any two calls: building is ahead of running by at most `Limit()` tics. */
    ghost predicate Valid()
      reads this`maketic, this`gametic, this`done, this`ran, ticdata
    {
      && Configured() && History()
      && Queued(ticdata[..], player, localplayer, done, maketic)
      && gametic == Blocks.BlockStart(done, ticdup) && done <= maketic <= done + Limit()
    }

    constructor (ticdup: nat, newSync: bool, singletics: bool, localplayer: nat,
                 player: nat -> Ticcmd, clock: nat -> int, initial: TicSet)
      requires ticdup >= 1 && localplayer < NET_MAXPLAYERS && Full(initial)
      ensures Valid() && fresh(ticdata) && maketic == 0 == done && ran == []
      ensures this.ticdup == ticdup && this.newSync == newSync && this.singletics == singletics
      ensures this.localplayer == localplayer && this.player == player && this.clock == clock
    {
      this.ticdup, this.newSync, this.singletics := ticdup, newSync, singletics;
      this.localplayer, this.player, this.clock := localplayer, player, clock;
      readings, maketic, gametic, lasttime, skiptics, oldentertics := 0, 0, 0, 0, 0, 0;
      ticdata := new TicSet[BACKUPTICS](i => initial);
      localPlayeringame := [];
      done, ran := 0, [];
    }

    method ReadClock() returns (t: int)
      modifies this`readings
      ensures readings == old(readings) + 1 && t == clock(old(readings))
    {
      t := clock(readings);
      readings := readings + 1;
    }

    /** In every state between calls: what `RunTic` has seen so far, against what was built. */
    lemma Delivered(f: Ticcmd -> byte)
      requires Valid() && forall c :: f(Squash(c)) == 0
      ensures Nonzero(LocalCmds(ran, localplayer), f) == Nonzero(Built(player, done), f)
      ensures |ran| == gametic && done <= maketic <= done + if newSync then 3 else 5
    {
      DeliveredOnce(player, done, ticdup, f);
    }

    method StartGameLoop()
      modifies this`readings, this`lasttime
      requires Configured()
      ensures readings == old(readings) + 1 && lasttime == CDiv(clock(old(readings)), ticdup)
    {
      var time := ReadClock();
      lasttime := CDiv(time, ticdup);
    }

    lemma GameTic(i: nat)
      requires Configured() && i < ticdup
      ensures (Blocks.BlockStart(done, ticdup) + i) / ticdup == done
    {
      Blocks.BlockOfStart(done, ticdup, i);
      Blocks.BlocksAreDivMod(Blocks.BlockStart(done, ticdup) + i, ticdup);
    }

    /** Builds one command unless building is as far ahead as allowed. */
    method BuildNewTic() returns (ok: bool)
      requires Valid()
      modifies this`maketic, ticdata
      ensures Valid() && ok == (old(maketic) - done < if newSync then 3 else 5)
      ensures maketic == old(maketic) + if ok then 1 else 0
    {
      GameTic(0);
      var gameticdiv := gametic / ticdup;
      if newSync {
        if maketic - gameticdiv > 2 {
          return false;
        }
        if maketic - gameticdiv > 8 {
          return false;
        }
      } else {
        if maketic - gameticdiv >= 5 {
          return false;
        }
      }
      var cmd := player(maketic);
      var slot := ticdata[maketic % BACKUPTICS];
      slot := TicSet(slot.cmds[localplayer := cmd], slot.ingame[localplayer := true]);
      QueuePush(ticdata[..], player, localplayer, done, maketic, slot);
      SetSlot(maketic % BACKUPTICS, slot);
      maketic := maketic + 1;
      ok := true;
    }

    /** Stores one slot of the ring. */
    method SetSlot(k: nat, s: TicSet)
      requires k < ticdata.Length
      modifies ticdata
      ensures ticdata[..] == old(ticdata[..])[k := s]
    {
      ticdata[k] := s;
    }

    /** The loop of `NetUpdate`. */
    method BuildTics(newtics: int)
      requires Valid()
      modifies this`maketic, ticdata
      ensures Valid() && maketic == old(maketic) + Min(Max(0, newtics), done + Limit() - old(maketic))
    {
      var i := 0;
      while i < newtics
        invariant 0 <= i <= Max(0, newtics) && Valid()
        invariant maketic == old(maketic) + i
      {
        var built := BuildNewTic();
        if !built {
          break;
        }
        i := i + 1;
      }
    }

    /** Builds a command for every tic of the clock since the last call, less the tics to be skipped,
        up to the limit. */
    method NetUpdate()
      requires Valid()
      modifies this`readings, this`maketic, this`lasttime, this`skiptics, ticdata
      ensures Valid() && old(maketic) <= maketic
      ensures singletics ==> readings == old(readings) && maketic == old(maketic) && lasttime == old(lasttime)
                             && skiptics == old(skiptics)
      ensures !singletics ==> readings == old(readings) + 1 && lasttime == CDiv(clock(old(readings)), ticdup)
      ensures !singletics ==>
        var asked := lasttime - old(lasttime) - old(skiptics);
        && skiptics == Max(0, -asked)
        && maketic == old(maketic) + Min(Max(0, asked), done + Limit() - old(maketic))
    {
      if singletics {
        return;
      }
      var now := ReadClock();
      var nowtime := CDiv(now, ticdup);
      var newtics := nowtime - lasttime;
      lasttime := nowtime;
      if skiptics <= newtics {
        newtics := newtics - skiptics;
        skiptics := 0;
      } else {
        skiptics := skiptics - newtics;
        newtics := 0;
      }
      BuildTics(newtics);
    }

    /** Clears everybody else out of a slot. */
    method SinglePlayerClear(k: nat)
      requires k < ticdata.Length && Full(ticdata[k]) && localplayer < NET_MAXPLAYERS && ticdata[k].ingame[localplayer]
      modifies ticdata
      ensures ticdata[..] == old(ticdata[..])[k := ticdata[k]]
      ensures ticdata[k].cmds == old(ticdata[k].cmds) && Solo(ticdata[k], localplayer)
    {
      var i := 0;
      while i < NET_MAXPLAYERS
        invariant 0 <= i <= NET_MAXPLAYERS
        invariant Full(ticdata[k]) && ticdata[k].cmds == old(ticdata[k].cmds)
        invariant ticdata[..] == old(ticdata[..])[k := ticdata[k]]
        invariant ticdata[k].ingame[localplayer]
        invariant forall j :: 0 <= j < i && j != localplayer ==> !ticdata[k].ingame[j]
      {
        if i != localplayer {
          ticdata[k] := ticdata[k].(ingame := ticdata[k].ingame[i := false]);
        }
        i := i + 1;
      }
    }

    /** Squashes every player's command of a slot. */
    method TicdupSquash(k: nat)
      requires k < ticdata.Length && Full(ticdata[k])
      modifies ticdata
      ensures ticdata[..] == old(ticdata[..])[k := ticdata[k]]
      ensures Full(ticdata[k]) && ticdata[k].ingame == old(ticdata[k].ingame)
      ensures forall i :: 0 <= i < NET_MAXPLAYERS ==> ticdata[k].cmds[i] == Squash(old(ticdata[k].cmds[i]))
    {
      var i := 0;
      while i < NET_MAXPLAYERS
        invariant 0 <= i <= NET_MAXPLAYERS
        invariant Full(ticdata[k]) && ticdata[k].ingame == old(ticdata[k].ingame)
        invariant ticdata[..] == old(ticdata[..])[k := ticdata[k]]
        invariant forall j :: 0 <= j < i ==> ticdata[k].cmds[j] == Squash(old(ticdata[k].cmds[j]))
        invariant forall j :: i <= j < NET_MAXPLAYERS ==> ticdata[k].cmds[j] == old(ticdata[k].cmds[j])
      {
        var cmd := ticdata[k].cmds[i].(chatchar := 0);
        if Special(cmd) {
          cmd := cmd.(buttons := 0);
        }
        ticdata[k] := ticdata[k].(cmds := ticdata[k].cmds[i := cmd]);
        i := i + 1;
      }
    }

    /** What holds while the `ticdup` runs of one tic are under way, after `i` of them. */
    ghost predicate Running(i: nat, k: nat)
      reads this`gametic, this`done, this`ran, ticdata
      requires Configured() && k < BACKUPTICS
    {
      && Solo(ticdata[k], localplayer) && Alone(ran, localplayer)
      && ticdata[k].cmds[localplayer] == (if i == 0 then player(done) else Squash(player(done)))
      && LocalCmds(ran, localplayer) == Expand(player, done, ticdup) + Copies(player(done), i)
      && gametic == Blocks.BlockStart(done, ticdup) + i
    }

    /** One of the `ticdup` runs of a tic. */
    method RunTicOnce(k: nat, ghost i: nat)
      requires Configured() && k < BACKUPTICS && Running(i, k)
      modifies this`gametic, this`localPlayeringame, this`ran, ticdata
      ensures Running(i + 1, k) && ticdata[..] == old(ticdata[..])[k := ticdata[k]]
      ensures ran == old(ran) + [old(ticdata[k])] && localPlayeringame == old(ticdata[k].ingame)
    {
      localPlayeringame := ticdata[k].ingame;
      LocalCmdsPush(ran, ticdata[k], localplayer);
      ran := ran + [ticdata[k]];
      gametic := gametic + 1;
      TicdupSquash(k);
    }

    /** The check before each run, and the run. The error cannot happen. */
    method CheckedRun(lowtic: nat, k: nat, ghost i: nat) returns (error: bool)
      requires Configured() && k < BACKUPTICS && Running(i, k) && done < lowtic && i < ticdup
      modifies this`gametic, this`localPlayeringame, this`ran, ticdata
      ensures !error && Running(i + 1, k) && ticdata[..] == old(ticdata[..])[k := ticdata[k]]
    {
      GameTic(i);
      error := gametic / ticdup > lowtic;
      RunTicOnce(k, i);
    }

    /** The loop over the runs of one tic. */
    method RunCopies(lowtic: nat, k: nat) returns (error: bool)
      requires Configured() && k < BACKUPTICS && Running(0, k) && done < lowtic
      modifies this`gametic, this`localPlayeringame, this`ran, ticdata
      ensures !error && Running(ticdup, k) && ticdata[..] == old(ticdata[..])[k := ticdata[k]]
    {
      hide Expand, Copies, LocalCmds;
      error := false;
      var i := 0;
      while i < ticdup
        invariant 0 <= i <= ticdup && Running(i, k) && !error
        invariant ticdata[..] == old(ticdata[..])[k := ticdata[k]]
      {
        error := CheckedRun(lowtic, k, i);
        if error {
          break;
        }
        i := i + 1;
      }
    }

    /** All runs of the oldest tic in the ring. */
    method RunSet(lowtic: nat) returns (error: bool)
      requires Valid() && done < lowtic <= maketic
      modifies this`gametic, this`localPlayeringame, this`ran, this`done, ticdata
      ensures Valid() && !error && done == old(done) + 1
    {
      hide Expand, Blocks.BlockStart;
      GameTic(0);
      var k := gametic / ticdup % BACKUPTICS;
      assert Holds(ticdata[k], player(done), localplayer);
      SinglePlayerClear(k);
      error := RunCopies(lowtic, k);
      QueuePop(old(ticdata[..]), player, localplayer, done, maketic, ticdata[k]);
      ExpandMore(player, done, ticdup);
      done := done + 1;
    }

    /** How many tics to run in the original synchronisation mode. */
    function Counts(realtics: int, availabletics: int): int {
      if newSync then availabletics
      else if realtics < availabletics - 1 then realtics + 1
      else if realtics < availabletics then realtics
      else availabletics
    }

    /** In the new mode all tics available are run. In the original mode building that is two tics or more ahead of the clock
        makes it run one tic more than the clock advanced; one tic ahead is left alone, and otherwise all are run. So it never runs more than
        the tics available or one more than the clock has advanced, and never fewer than both allow. */
    lemma CountsBounds(realtics: int, availabletics: int)
      ensures newSync ==> Counts(realtics, availabletics) == availabletics
      ensures !newSync ==>
        var lead := availabletics - realtics;
        Counts(realtics, availabletics) == availabletics - Max(0, lead) + if lead >= 2 then 1 else 0
      ensures !newSync ==>
        Min(availabletics, realtics) <= Counts(realtics, availabletics) <= Min(availabletics, realtics + 1)
    {
    }

    /** Reading `k` of the clock is later than the tic in which the call began. */
    predicate Late(k: nat, entertic: int)
      requires ticdup >= 1
    {
      CDiv(clock(k), ticdup) > entertic
    }

    /** The clock readings that `t` turns of the wait make: one each, and one more for `NetUpdate` unless tics are
        built singly. */
    function Read(t: nat): nat {
      if singletics then t else 2 * t
    }

    /** None of the turns up to the `t`-th of a wait that began with reading `from` was late. */
    ghost predicate Early(from: nat, t: int, entertic: int)
      requires ticdup >= 1
    {
      forall k: nat :: 0 < k <= t ==> !Late(from + Read(k) - 1, entertic)
    }

    lemma EarlyMore(from: nat, t: nat, entertic: int)
      requires ticdup >= 1 && Early(from, t, entertic) && !Late(from + Read(t + 1) - 1, entertic)
      ensures Early(from, t + 1, entertic)
    {
    }

    /** One turn of the wait; `below` is the program's error, which cannot happen. */
    method WaitTurn(entertic: int) returns (lowtic: nat, below: bool, late: bool)
      requires Valid()
      modifies this`readings, this`maketic, this`lasttime, this`skiptics, ticdata
      ensures Valid() && lowtic == maketic && old(maketic) <= maketic && !below
      ensures readings == old(readings) + Read(1) && late == Late(readings - 1, entertic)
    {
      hide CDiv, Expand, LocalCmds, Queued;
      NetUpdate();
      lowtic := maketic;
      GameTic(0);
      below := lowtic < gametic / ticdup;
      var time := ReadClock();
      late := CDiv(time, ticdup) - entertic > 0;
    }

    /** Waits until `lowtic` has reached the tics wanted. It is left for the menu at the first reading that is later than
        `entertic`, and not before. The error cannot happen. */
    method WaitForTics(wanted: nat, entertic: int, patience: nat) returns (lowtic: nat, stop: Outcome, ghost turns: nat)
      requires Valid()
      modifies this`readings, this`maketic, this`lasttime, this`skiptics, ticdata
      ensures Valid() && !stop.Failed? && lowtic == maketic
      ensures (stop == Completed ==> lowtic >= wanted) && old(maketic) <= maketic
      ensures old(maketic) >= wanted ==> stop == Completed && maketic == old(maketic) && turns == 0
      ensures readings == old(readings) + Read(turns) && Early(old(readings), turns - 1, entertic)
      ensures 0 < turns ==> (Late(old(readings) + Read(turns) - 1, entertic) <==> stop == MenuOnly)
      ensures stop == MenuOnly ==> 0 < turns
      ensures stop == StillWaiting ==> turns == patience && lowtic < wanted
    {
      lowtic, stop, turns := maketic, Completed, 0;
      assert ticdup >= 1;
      hide Valid, Late, Early, Queued, History, CDiv;
      assert Early(readings, 0, entertic) by { NoneEarly(readings, entertic); }
      var left := patience;
      while lowtic < wanted
        invariant Valid() && lowtic == maketic && stop == Completed && 0 <= left && left + turns == patience
        invariant old(maketic) <= maketic && (old(maketic) >= wanted ==> maketic == old(maketic) && turns == 0)
        invariant readings == old(readings) + Read(turns) && Early(old(readings), turns, entertic)
        invariant 0 < turns ==> !Late(old(readings) + Read(turns) - 1, entertic)
        decreases left
      {
        if left == 0 {
          EarlyBefore(old(readings), turns, entertic);
          return lowtic, StillWaiting, turns;
        }
        var below, late;
        lowtic, below, late := WaitTurn(entertic);
        left, turns := left - 1, turns + 1;
        if below {
          stop := Failed;
        }
        if late {
          return lowtic, MenuOnly, turns;
        }
        EarlyMore(old(readings), turns - 1, entertic);
      }
      EarlyBefore(old(readings), turns, entertic);
    }

    lemma NoneEarly(from: nat, entertic: int)
      requires ticdup >= 1
      ensures Early(from, 0, entertic) && Early(from, -1, entertic)
    {
    }

    lemma EarlyBefore(from: nat, t: nat, entertic: int)
      requires ticdup >= 1 && Early(from, t, entertic)
      ensures Early(from, t - 1, entertic)
    {
    }

    /** The loop that runs `counts` tics, building new ones in between. The error cannot happen. */
    method RunTics(counts: nat, lowtic: nat) returns (error: bool)
      requires Valid() && done + counts <= lowtic <= maketic
      modifies this`readings, this`maketic, this`lasttime, this`skiptics, ticdata
      modifies this`gametic, this`localPlayeringame, this`ran, this`done
      ensures Valid() && !error && done == old(done) + counts && maketic >= old(maketic)
      ensures singletics ==> maketic == old(maketic)
      ensures readings == old(readings) + if singletics then 0 else counts
    {
      error := false;
      var left := counts;
      while left > 0
        invariant Valid() && !error && 0 <= left <= counts && done == old(done) + counts - left
        invariant maketic >= old(maketic) && (singletics ==> maketic == old(maketic))
        invariant readings == old(readings) + if singletics then 0 else counts - left
      {
        left := left - 1;
        var failed := RunSet(lowtic);
        if failed {
          error := true;
        }
        NetUpdate();
      }
    }

    /** How many commands the next call builds before it decides: with single tics one, and otherwise as many as tics
        have passed since the last time, less those to skip, but none beyond the limit. */
    ghost function Coming(): int
      reads this`readings, this`maketic, this`lasttime, this`skiptics, this`done
      requires ticdup >= 1
    {
      var asked := if singletics then 1 else CDiv(clock(readings + 1), ticdup) - lasttime - skiptics;
      Min(Max(0, asked), done + (if newSync then 3 else 5) - maketic)
    }

    method Produce()
      requires Valid()
      modifies this`readings, this`maketic, this`lasttime, this`skiptics, ticdata
      ensures Valid() && old(maketic) <= maketic
      ensures singletics ==> maketic == old(maketic) + Min(1, done + Limit() - old(maketic)) && readings == old(readings)
      ensures !singletics ==>
        var asked := CDiv(clock(old(readings)), ticdup) - old(lasttime) - old(skiptics);
        && readings == old(readings) + 1
        && maketic == old(maketic) + Min(Max(0, asked), done + Limit() - old(maketic))
    {
      if singletics {
        var built := BuildNewTic();
      } else {
        NetUpdate();
      }
    }

    /** The first part of `TryRunTics`: building what the clock asks for, and deciding how many tics to run. */
    method Decide() returns (counts: nat, entertic: int)
      requires Valid()
      modifies this`readings, this`maketic, this`lasttime, this`skiptics, this`oldentertics, ticdata
      ensures Valid() && old(maketic) <= maketic == old(maketic + Coming()) && 1 <= counts
      ensures entertic == CDiv(clock(old(readings)), ticdup) && oldentertics == entertic
      ensures counts == Max(1, Counts(entertic - old(oldentertics), maketic - done))
      ensures singletics ==> maketic == old(maketic) + if old(maketic) - done < Limit() then 1 else 0
      ensures readings == old(readings) + if singletics then 1 else 2
    {
      hide Expand, LocalCmds, CDiv;
      var time := ReadClock();
      entertic := CDiv(time, ticdup);
      var realtics := entertic - oldentertics;
      oldentertics := entertic;
      Produce();
      GameTic(0);
      var wanted := Counts(realtics, maketic - gametic / ticdup);
      counts := if wanted < 1 then 1 else wanted;
    }

    /** The tics that the next call runs, if it is not given up. */
    ghost function Due(): int
      reads this`readings, this`maketic, this`lasttime, this`skiptics, this`oldentertics, this`done
      requires ticdup >= 1
    {
      Max(1, Counts(CDiv(clock(readings), ticdup) - oldentertics, maketic + Coming() - done))
    }

    lemma SingleDue()
      requires ticdup >= 1 && singletics && maketic == done
      ensures Due() == 1 == Coming()
    {
    }

    /** Runs just the tics that are due, unless the wait for them is given up. A run in which each call runs just
        one tic stays one, when `singletics` is set. */
    method TryRunTics(patience: nat) returns (result: Outcome)
      requires Valid()
      modifies this, ticdata
      ensures Valid() && !result.Failed? && old(done) <= done && old(maketic) <= maketic
      ensures done == old(done) + if result == Completed then old(Due()) else 0
      ensures done > old(done) <==> result == Completed
      ensures old(Due() <= maketic + Coming() - done) ==> result == Completed
      ensures singletics && old(maketic) == old(done) ==>
        result == Completed && done == old(done) + 1 == maketic
    {
      if singletics && maketic == done {
        SingleDue();
      }
      hide Counts, Coming, CDiv, Expand, LocalCmds, Queued, Copies;
      ghost var due := Due();
      var counts, entertic := Decide();
      assert counts == due;
      GameTic(0);
      assert gametic / ticdup == done;
      var lowtic;
      ghost var turns;
      lowtic, result, turns := WaitForTics(gametic / ticdup + counts, entertic, patience);
      if result != Completed {
        return;
      }
      var error := RunTics(counts, lowtic);
      if error {
        result := Failed;
      }
    }
  }
}
