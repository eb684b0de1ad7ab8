/** Recording a demo into a growing buffer, and playing it back. */
module Demo {
  import opened Bytes
  import opened Ticcmds
  import opened DemoFormat

  const MAXPLAYERS: nat := 4

  /** The settings of a game that go into a demo's header. */
  datatype Game = Game(skill: byte, episode: byte, level: byte, deathmatch: byte, respawn: byte, fast: byte,
                       nomonsters: byte, consoleplayer: byte, playeringame: seq<byte>)

  function HeaderBytes(g: Game, code: byte, long: bool): (s: seq<byte>)
    requires |g.playeringame| == MAXPLAYERS
    ensures |s| == HEADER
  {
    [if long then DOOM_191_VERSION else code, g.skill, g.episode, g.level, g.deathmatch, g.respawn, g.fast,
     g.nomonsters, g.consoleplayer] + g.playeringame
  }

  function HeaderGame(s: seq<byte>): Game
    requires |s| >= HEADER
  {
    Game(s[1], s[2], s[3], s[4], s[5], s[6], s[7], s[8], s[9..13])
  }

  /** The turn format playback chooses; an unknown version leaves it as it was. */
  function HeaderLong(s: seq<byte>, code: byte, before: bool): bool
    requires |s| >= HEADER
  {
    if s[0] == code then false else if s[0] == DOOM_191_VERSION then true else before
  }

  lemma HeaderRoundTrip(g: Game, code: byte, long: bool, before: bool, rest: seq<byte>)
    requires |g.playeringame| == MAXPLAYERS && code != DOOM_191_VERSION
    ensures var s := HeaderBytes(g, code, long) + rest;
      HeaderGame(s) == g && HeaderLong(s, code, before) == long && s[HEADER..] == rest
  {
  }

  /** The header byte by byte: the version, 111 if turns are long; eight settings; and who is in the game. */
  lemma HeaderLayout(g: Game, code: byte, long: bool)
    requires |g.playeringame| == MAXPLAYERS
    ensures var s := HeaderBytes(g, code, long);
      && |s| == 13 && s[0] == (if long then 111 else code)
      && s[1] == g.skill && s[2] == g.episode && s[3] == g.level && s[4] == g.deathmatch && s[5] == g.respawn
      && s[6] == g.fast && s[7] == g.nomonsters && s[8] == g.consoleplayer
      && forall i :: 0 <= i < 4 ==> s[9 + i] == g.playeringame[i]
  {
  }

  ghost predicate AllPlayable(ms: seq<Move>, long: bool) {
    forall m :: m in ms ==> Playable(m, long)
  }

  /** Reads one command out of a buffer. */
  method ReadMove(buffer: array<byte>, at: nat, long: bool, cmd: Ticcmd) returns (out: Ticcmd, next: nat)
    requires at + Width(long) <= buffer.Length
    ensures next == at + Width(long) && out == Moved(cmd, Decode(buffer[at..next], long))
  {
    var p := at;
    out := cmd.(forwardmove := ToSByte(buffer[p]));
    p := p + 1;
    out := out.(sidemove := ToSByte(buffer[p]));
    p := p + 1;
    if long {
      var low: int := buffer[p];
      var high: int := buffer[p + 1];
      out := out.(angleturn := ToShort(low + 256 * high));
      p := p + 2;
    } else {
      var low: int := buffer[p];
      out := out.(angleturn := ToShort(256 * low));
      p := p + 1;
    }
    out := out.(buttons := buffer[p]);
    next := p + 1;
    ghost var s := buffer[at..next];
    assert s[0] == buffer[at] && s[1] == buffer[at + 1] && s[2] == buffer[at + 2] && s[3] == buffer[at + 3];
  }

  lemma AppendMove(b: seq<byte>, start: nat, header: seq<byte>, ms: seq<Move>, m: Move, long: bool)
    requires start + Width(long) <= |b| && b[..start] == header + EncodeAll(ms, long)
    requires b[start..start + Width(long)] == Encode(m, long)
    ensures b[..start + Width(long)] == header + EncodeAll(ms + [m], long)
  {
  }

  lemma MarkerByte(m: Move, long: bool)
    ensures Encode(m, long)[0] == DEMOMARKER <==> m.forwardmove == -128
  {
  }

  lemma Taken(cmd: Ticcmd, long: bool)
    requires cmd.forwardmove != -128
    ensures var s := Encode(MoveOf(cmd), long); var m := Decode(s, long);
      m == Recorded(MoveOf(cmd), long) && Playable(m, long) && Encode(m, long) == s
  {
    CodecRoundTrip(MoveOf(cmd), long);
    CodecRoundTrip(Recorded(MoveOf(cmd), long), long);
  }

  lemma PlayableMore(ms: seq<Move>, m: Move, long: bool)
    requires AllPlayable(ms, long) && Playable(m, long)
    ensures AllPlayable(ms + [m], long)
  {
  }

  /** The file of a finished recording, read the way playback reads it. */
  lemma FileDecodes(file: seq<byte>, ms: seq<Move>, game: Game, code: byte, long: bool, before: bool)
    requires |game.playeringame| == MAXPLAYERS && code != DOOM_191_VERSION && AllPlayable(ms, long)
    requires file == HeaderBytes(game, code, long) + EncodeAll(ms, long) + [DEMOMARKER]
    ensures |file| >= HEADER && HeaderGame(file) == game && HeaderLong(file, code, before) == long
    ensures DecodeAll(file[HEADER..], long) == Some(ms)
  {
    var body := EncodeAll(ms, long) + [DEMOMARKER];
    assert file == HeaderBytes(game, code, long) + body;
    HeaderRoundTrip(game, code, long, before, body);
    PlaysBack(ms, long);
  }

  class Recorder {
    const longtics: bool
    const vanillaLimit: bool
    var demobuffer: array<byte>
    var demoP: nat
    var recording: bool
    /** What was written to the file, once recording is over. */
    var file: seq<byte>

    ghost const header: seq<byte>
    /** The commands the game went on with. */
    ghost var acted: seq<Move>

    ghost predicate InBuffer()
      reads this, demobuffer
    {
      && demoP + Width(longtics) <= demobuffer.Length
      && demobuffer[..demoP] == header + EncodeAll(acted, longtics)
    }

    ghost predicate Valid()
      reads this, demobuffer
    {
      && |header| == HEADER && AllPlayable(acted, longtics)
      && if recording then InBuffer() else file == header + EncodeAll(acted, longtics) + [DEMOMARKER]
    }

    /** `G_RecordDemo` and `G_BeginRecording` */
    constructor (game: Game, code: byte, longtics: bool, vanillaLimit: bool, maxsize: nat)
      requires |game.playeringame| == MAXPLAYERS && maxsize >= HEADER + Width(longtics)
      ensures Valid() && recording && acted == [] && fresh(demobuffer)
      ensures header == HeaderBytes(game, code, longtics) && this.longtics == longtics
      ensures this.vanillaLimit == vanillaLimit && demobuffer.Length == maxsize
    {
      this.longtics, this.vanillaLimit := longtics, vanillaLimit;
      var bytes := HeaderBytes(game, code, longtics);
      demobuffer := new byte[maxsize](i => 0);
      demoP, recording, file, header, acted := 0, true, [], bytes, [];
      new;
      while demoP < HEADER
        invariant demoP <= HEADER && fresh(demobuffer) && demobuffer.Length == maxsize && recording
        invariant demobuffer[..demoP] == bytes[..demoP] && acted == []
        modifies this`demoP, demobuffer
      {
        demobuffer[demoP] := bytes[demoP];
        demoP := demoP + 1;
      }
      assert bytes[..demoP] == bytes;
    }

    /** `G_CheckDemoStatus` while recording: the marker ends the demo and the file is written. */
    method CheckDemoStatus()
      requires Valid() && recording
      modifies this`demoP, this`recording, this`file, demobuffer
      ensures Valid() && !recording
    {
      demobuffer[demoP] := DEMOMARKER;
      demoP := demoP + 1;
      assert demobuffer[..demoP] == demobuffer[..demoP - 1] + [DEMOMARKER];
      file := demobuffer[..demoP];
      recording := false;
    }

    /** Puts a command at the demo pointer without moving it. */
    method PutMove(cmd: Ticcmd)
      requires demoP + Width(longtics) <= demobuffer.Length
      modifies demobuffer
      ensures demobuffer[..demoP] == old(demobuffer[..demoP])
      ensures demobuffer[demoP..demoP + Width(longtics)] == Encode(MoveOf(cmd), longtics)
    {
      demobuffer[demoP] := ToByte(cmd.forwardmove);
      demobuffer[demoP + 1] := ToByte(cmd.sidemove);
      if longtics {
        demobuffer[demoP + 2] := cmd.angleturn % 256;
        demobuffer[demoP + 3] := cmd.angleturn / 256 % 256;
        demobuffer[demoP + 4] := cmd.buttons;
      } else {
        demobuffer[demoP + 2] := cmd.angleturn / 256 % 256;
        demobuffer[demoP + 3] := cmd.buttons;
      }
    }

    /** A buffer of twice the size takes over. */
    method IncreaseDemoBuffer()
      modifies this`demobuffer
      ensures fresh(demobuffer) && demobuffer.Length == 2 * old(demobuffer.Length)
      ensures forall i :: 0 <= i < old(demobuffer.Length) ==> demobuffer[i] == old(demobuffer[i])
    {
      var length := demobuffer.Length;
      var larger := new byte[2 * length](i => 0);
      forall i | 0 <= i < length {
        larger[i] := demobuffer[i];
      }
      demobuffer := larger;
    }

    /** The command just put is taken back and acted on. */
    method TakeMove(cmd: Ticcmd) returns (out: Ticcmd)
      requires Valid() && recording && demoP + 16 <= demobuffer.Length && cmd.forwardmove != -128
      requires demobuffer[demoP..demoP + Width(longtics)] == Encode(MoveOf(cmd), longtics)
      modifies this`demoP, this`acted
      ensures Valid() && out == Moved(cmd, Recorded(MoveOf(cmd), longtics)) && acted == old(acted) + [MoveOf(out)]
    {
      ghost var start := demoP;
      Taken(cmd, longtics);
      out, demoP := ReadMove(demobuffer, demoP, longtics, cmd);
      AppendMove(demobuffer[..], start, header, acted, MoveOf(out), longtics);
      PlayableMore(acted, MoveOf(out), longtics);
      acted := acted + [MoveOf(out)];
    }

    /** `G_ReadDemoTiccmd` while recording: the command just put is read back, unless its first byte is
        taken for the marker. */
    method ReadBack(cmd: Ticcmd) returns (out: Ticcmd)
      requires Valid() && recording && demoP + 16 <= demobuffer.Length
      requires demobuffer[demoP..demoP + Width(longtics)] == Encode(MoveOf(cmd), longtics)
      modifies this`demoP, this`recording, this`file, this`acted, demobuffer
      ensures Valid() && recording == (cmd.forwardmove != -128)
      ensures recording ==> out == Moved(cmd, Recorded(MoveOf(cmd), longtics))
      ensures acted == old(acted) + if recording then [MoveOf(out)] else []
    {
      MarkerByte(MoveOf(cmd), longtics);
      assert demobuffer[demoP] == demobuffer[demoP..demoP + Width(longtics)][0];
      out := cmd;
      if demobuffer[demoP] == DEMOMARKER {
        CheckDemoStatus();
        return;
      }
      out := TakeMove(cmd);
    }

    /** No room for another command: a larger buffer takes over. */
    method MakeRoom(cmd: Ticcmd)
      requires Valid() && recording && demobuffer[demoP..demoP + Width(longtics)] == Encode(MoveOf(cmd), longtics)
      modifies this`demobuffer
      ensures Valid() && demoP + 16 <= demobuffer.Length && fresh(demobuffer)
      ensures demobuffer[demoP..demoP + Width(longtics)] == Encode(MoveOf(cmd), longtics)
    {
      ghost var before := demobuffer[..];
      IncreaseDemoBuffer();
      assert demobuffer[..demoP] == before[..demoP];
      assert demobuffer[demoP..demoP + Width(longtics)] == before[demoP..demoP + Width(longtics)];
    }

    /** `G_WriteDemoTiccmd`: the command is recorded and becomes what the game acts on, until the player
        quits, the buffer of the original game is full, or the move is the one that means the end. */
    method WriteDemoTiccmd(cmd: Ticcmd, quit: bool) returns (out: Ticcmd)
      requires Valid() && recording
      modifies this, demobuffer
      ensures Valid()
      ensures recording ==
        !(quit || (vanillaLimit && old(demoP) > old(demobuffer.Length) - 16) || cmd.forwardmove == -128)
      ensures recording ==> out == Moved(cmd, Recorded(MoveOf(cmd), longtics))
      ensures acted == old(acted) + if recording then [MoveOf(out)] else []
      ensures demobuffer == old(demobuffer) || (!vanillaLimit && fresh(demobuffer))
    {
      out := cmd;
      if quit {
        CheckDemoStatus();
        return;
      }
      PutMove(cmd);
      if demoP > demobuffer.Length - 16 {
        if vanillaLimit {
          CheckDemoStatus();
          return;
        }
        MakeRoom(cmd);
      }
      out := ReadBack(cmd);
    }
  }

  /** One command less to play. */
  lemma NextCommand(s: seq<byte>, at: nat, long: bool)
    requires at + Width(long) <= |s| && s[at] != DEMOMARKER
    ensures var next := at + Width(long);
      && Commands(s[at..], long) == [Decode(s[at..next], long)] + Commands(s[next..], long)
      && (DecodeAll(s[at..], long).Some? <==> DecodeAll(s[next..], long).Some?)
  {
    var next := at + Width(long);
    assert s[at..][Width(long)..] == s[next..] && s[at..][0] == s[at];
    assert s[at..] == s[at..next] + s[next..];
    DecodeIgnoresRest(s[at..next], s[next..], long);
  }

  /** What a call of `G_ReadDemoTiccmd` finds. */
  datatype Reading = Command | Marker | Overrun

  class Player {
    const lump: array<byte>
    const longtics: bool
    var demoP: nat
    var playing: bool
    var game: Game
    /** The commands played so far. */
    ghost var played: seq<Move>

    /** What is still to be played. */
    ghost function Rest(): seq<Move>
      reads this`demoP, lump
      requires demoP <= lump.Length
    {
      Commands(lump[demoP..], longtics)
    }

    /** There is a marker at the end of it. */
    ghost predicate Ends()
      reads this`demoP, lump
      requires demoP <= lump.Length
    {
      DecodeAll(lump[demoP..], longtics).Some?
    }

    ghost predicate Valid()
      reads this
    {
      demoP <= lump.Length
    }

    /** The commands of the whole demo. */
    ghost function Whole(): seq<Move>
      reads this, lump
      requires Valid()
    {
      played + if playing then Rest() else []
    }

    /** `G_DoPlayDemo` */
    constructor (lump: array<byte>, code: byte, before: bool)
      requires lump.Length >= HEADER
      ensures Valid() && playing && played == [] && this.lump == lump && game == HeaderGame(lump[..])
      ensures longtics == HeaderLong(lump[..], code, before)
      ensures Whole() == Commands(lump[HEADER..], longtics) && Ends() == DecodeAll(lump[HEADER..], longtics).Some?
    {
      this.lump, longtics, game := lump, HeaderLong(lump[..], code, before), HeaderGame(lump[..]);
      demoP, playing, played := HEADER, true, [];
      new;
      assert Whole() == Rest();
    }

    /** `G_ReadDemoTiccmd`: the next command of the demo, or the end at the marker, or a read behind the last
        byte of a demo without one. */
    method ReadDemoTiccmd(cmd: Ticcmd) returns (r: Reading, out: Ticcmd)
      requires Valid() && playing
      modifies this`demoP, this`playing, this`played
      ensures Valid() && Whole() == old(Whole()) && Ends() == old(Ends())
      ensures r == if old(Rest()) != [] then Command else if old(Ends()) then Marker else Overrun
      ensures playing == !r.Marker?
      ensures if r.Command? then
          played == old(played) + [MoveOf(out)] && out == Moved(cmd, old(Rest())[0]) && Rest() == old(Rest())[1..]
        else played == old(played) && out == cmd && Rest() == old(Rest())
    {
      out := cmd;
      if demoP == lump.Length {
        return Overrun, out;
      }
      assert lump[demoP..][0] == lump[demoP];
      if lump[demoP] == DEMOMARKER {
        playing := false;
        return Marker, out;
      }
      if demoP + Width(longtics) > lump.Length {
        return Overrun, out;
      }
      r := Command;
      out := NextMove(cmd);
    }

    /** A whole command is there. */
    method NextMove(cmd: Ticcmd) returns (out: Ticcmd)
      requires Valid() && playing && demoP + Width(longtics) <= lump.Length && lump[demoP] != DEMOMARKER
      modifies this`demoP, this`played
      ensures Valid() && Whole() == old(Whole()) && Ends() == old(Ends()) && old(Rest()) != []
      ensures played == old(played) + [MoveOf(out)] && out == Moved(cmd, old(Rest())[0]) && Rest() == old(Rest())[1..]
    {
      hide DemoFormat.Commands, DemoFormat.DecodeAll, DemoFormat.Decode;
      NextCommand(lump[..], demoP, longtics);
      out, demoP := ReadMove(lump, demoP, longtics, cmd);
      assert lump[..][demoP..] == lump[demoP..];
      played := played + [MoveOf(out)];
    }

    /** Playing to the end, or until the bytes run out. */
    method PlayAll() returns (ended: bool)
      requires Valid() && playing
      modifies this`demoP, this`playing, this`played
      ensures played == old(Whole()) && ended == old(Ends()) && playing == !ended
    {
      var cmd, r := Ticcmd(0, 0, 0, 0, 0, 0), Command;
      while r.Command?
        invariant Valid() && Whole() == old(Whole()) && Ends() == old(Ends()) && playing == !r.Marker?
        invariant !r.Command? ==> Rest() == [] && r.Marker? == Ends()
        decreases r.Command?, |Rest()|
      {
        r, cmd := ReadDemoTiccmd(cmd);
      }
      ended := r.Marker?;
    }
  }

  /** `G_RecordDemo` with a buffer of `kib` times 1024 bytes; without a byte of buffer the header is already written
      behind it. */
  method RecordDemo(game: Game, code: byte, longtics: bool, vanillaLimit: bool, kib: int) returns (r: Option<Recorder>)
    requires |game.playeringame| == MAXPLAYERS
    ensures r.None? <==> kib <= 0
    ensures r.Some? ==>
      && fresh(r.value) && fresh(r.value.demobuffer) && r.value.Valid() && r.value.recording && r.value.acted == []
      && r.value.header == HeaderBytes(game, code, longtics) && r.value.longtics == longtics
      && r.value.vanillaLimit == vanillaLimit && r.value.demobuffer.Length == kib * 1024
  {
    var maxsize := kib * 1024;
    if maxsize < HEADER + Width(longtics) {
      return None;
    }
    var recorder := new Recorder(game, code, longtics, vanillaLimit, maxsize);
    r := Some(recorder);
  }

  /** `G_DoPlayDemo` on any lump; one shorter than a header is read beyond its end. */
  method DoPlayDemo(lump: array<byte>, code: byte, before: bool) returns (p: Option<Player>)
    ensures p.None? <==> lump.Length < HEADER
    ensures p.Some? ==>
      && fresh(p.value) && p.value.Valid() && p.value.playing && p.value.lump == lump && p.value.played == []
      && p.value.game == HeaderGame(lump[..]) && p.value.longtics == HeaderLong(lump[..], code, before)
      && (code != 111 ==> p.value.longtics == (lump[0] == 111 || (lump[0] != code && before)))
      && p.value.Whole() == Commands(lump[HEADER..], p.value.longtics)
      && p.value.Ends() == DecodeAll(lump[HEADER..], p.value.longtics).Some?
  {
    if lump.Length < HEADER {
      return None;
    }
    var player := new Player(lump, code, before);
    p := Some(player);
  }

  /** End to end: a finished recording, loaded as a lump and played by the same version of the game, gives
      the settings of the recorded game and exactly the commands it went on with. */
  method Replay(r: Recorder, game: Game, code: byte, before: bool) returns (p: Player)
    requires r.Valid() && !r.recording
    requires |game.playeringame| == MAXPLAYERS && code != DOOM_191_VERSION
    requires r.header == HeaderBytes(game, code, r.longtics)
    ensures !p.playing && p.played == r.acted && p.game == game
  {
    var file := r.file;
    var lump := new byte[|file|](i requires 0 <= i < |file| => file[i]);
    assert lump[..] == file;
    FileDecodes(file, r.acted, game, code, r.longtics, before);
    DecodesCommands(file[HEADER..], r.longtics);
    p := new Player(lump, code, before);
    var ended := p.PlayAll();
  }

  // ---------- whole recordings ----------

  /** The first command that would be taken for the end of the demo. */
  function FirstMarker(cmds: seq<Ticcmd>): (k: nat)
    ensures k <= |cmds| && (k < |cmds| ==> cmds[k].forwardmove == -128)
    ensures forall j :: 0 <= j < k ==> cmds[j].forwardmove != -128
  {
    if cmds == [] || cmds[0].forwardmove == -128 then 0 else 1 + FirstMarker(cmds[1..])
  }

  function RecordedMoves(cmds: seq<Ticcmd>, long: bool): (ms: seq<Move>)
    ensures |ms| == |cmds|
  {
    if cmds == [] then []
    else RecordedMoves(cmds[..|cmds| - 1], long) + [Recorded(MoveOf(cmds[|cmds| - 1]), long)]
  }

  /** How many commands the original game records into a buffer of `length` bytes: it stops when the next one
      would begin in the last 15 bytes. */
  function Capacity(length: nat, long: bool): nat {
    if length < HEADER + 16 then 0 else (length - 16 - HEADER) / Width(long) + 1
  }

  lemma CapacityExactly(length: nat, long: bool, k: nat)
    ensures HEADER + k * Width(long) > length - 16 <==> k >= Capacity(length, long)
  {
  }

  /** Where a recording ends: at the first marker, or where the original game's buffer is full. */
  function Stop(cmds: seq<Ticcmd>, vanillaLimit: bool, length: nat, long: bool): (k: nat)
    ensures k <= |cmds|
  {
    var k := FirstMarker(cmds);
    if vanillaLimit && Capacity(length, long) < k then Capacity(length, long) else k
  }

  /** A whole recording: the game acts on all commands, in the resolution of the format, up to the first
      whose forward move is -128, or up to the limit of the original game. */
  method Record(r: Recorder, cmds: seq<Ticcmd>)
    requires r.Valid() && r.recording && r.acted == []
    modifies r, r.demobuffer
    ensures r.Valid() && !r.recording
    ensures r.acted == RecordedMoves(cmds[..Stop(cmds, r.vanillaLimit, old(r.demobuffer.Length), r.longtics)], r.longtics)
  {
    hide Capacity, DemoFormat.EncodeAll, FirstMarker;
    ghost var length := r.demobuffer.Length;
    ghost var stop := Stop(cmds, r.vanillaLimit, length, r.longtics);
    var i := 0;
    while i < |cmds| && r.recording
      invariant 0 <= i <= |cmds| && r.Valid()
      invariant r.recording ==> i <= stop && r.acted == RecordedMoves(cmds[..i], r.longtics)
      invariant !r.recording ==> r.acted == RecordedMoves(cmds[..stop], r.longtics)
      invariant r.demobuffer == old(r.demobuffer) || (!r.vanillaLimit && fresh(r.demobuffer))
    {
      assert cmds[..i + 1][..i] == cmds[..i];
      CapacityExactly(length, r.longtics, i);
      RecordedSoFar(r, i);
      var out := r.WriteDemoTiccmd(cmds[i], false);
      i := i + 1;
    }
    if r.recording {
      r.CheckDemoStatus();
    }
  }

  /** The place of the next command after `i` of them. */
  lemma RecordedSoFar(r: Recorder, i: nat)
    requires r.Valid() && r.recording && |r.acted| == i
    ensures r.demoP == HEADER + i * Width(r.longtics)
  {
    assert |r.demobuffer[..r.demoP]| == r.demoP;
  }

  /** Record, then play: exactly the commands before the end of the recording come back. */
  method RecordAndReplay(game: Game, code: byte, long: bool, before: bool, vanillaLimit: bool, maxsize: nat, cmds: seq<Ticcmd>)
    returns (p: Player)
    requires |game.playeringame| == MAXPLAYERS && code != DOOM_191_VERSION && maxsize >= HEADER + Width(long)
    ensures !p.playing && p.game == game && p.played == RecordedMoves(cmds[..Stop(cmds, vanillaLimit, maxsize, long)], long)
  {
    var r := new Recorder(game, code, long, vanillaLimit, maxsize);
    Record(r, cmds);
    p := Replay(r, game, code, before);
  }

  /** Every command survives exactly if no forward move is -128. */
  lemma AllSurviveExactly(cmds: seq<Ticcmd>, long: bool)
    ensures RecordedMoves(cmds[..FirstMarker(cmds)], long) == RecordedMoves(cmds, long)
       <==> forall c :: c in cmds ==> c.forwardmove != -128
  {
    if FirstMarker(cmds) == |cmds| {
      assert cmds[..FirstMarker(cmds)] == cmds;
    } else {
      assert cmds[FirstMarker(cmds)] in cmds;
    }
  }
}
