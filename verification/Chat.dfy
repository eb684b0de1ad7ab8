/** Chat between two players: keys are queued one by one, travel with the tic commands, and are typed
    again by the receiver. */
module Chat {
  import opened Bytes
  import opened ChatLine

  const MAXPLAYERS: nat := 4

  /** A finished line, and whom it is for: a player's number from 1 on, or `HU_BROADCAST`. */
  datatype Line = Line(dest: byte, text: seq<byte>)

  // ---------- what a stream of characters means ----------

  /** The receiver: the latest destination, the line being typed, and the finished lines. */
  datatype Heard = Heard(dest: byte, text: seq<byte>, lines: seq<Line>)

  const SILENCE: Heard := Heard(0, [], [])

  /** A destination rather than a key; a C `char` of 128 and more is negative. */
  predicate Control(c: byte) {
    c <= HU_BROADCAST || c >= 128
  }

  function Hear(h: Heard, c: byte): Heard {
    if Control(c) then h.(dest := c)
    else if c == KEY_ENTER then Heard(h.dest, [], h.lines + [Line(h.dest, h.text)])
    else h.(text := Typed(h.text, 0, c))
  }

  function HearAll(s: seq<byte>): Heard {
    if s == [] then SILENCE else Hear(HearAll(s[..|s| - 1]), s[|s| - 1])
  }

  lemma HearMore(s: seq<byte>, c: byte)
    ensures HearAll(s + [c]) == Hear(HearAll(s), c)
  {
  }

  /** Lines once heard stay: the start of a stream gives the first of its lines. */
  lemma {:induction false} LinesGrow(s: seq<byte>, t: seq<byte>)
    ensures HearAll(s).lines <= HearAll(s + t).lines
    decreases |t|
  {
    if t == [] {
      assert s + t == s;
    } else {
      assert (s + t)[..|s + t| - 1] == s + t[..|t| - 1];
      LinesGrow(s, t[..|t| - 1]);
    }
  }

  /** The line being typed never exceeds the limit and holds upper-case printable characters only. */
  lemma {:induction false} HeardWell(s: seq<byte>)
    ensures |HearAll(s).text| <= HU_MAXLINELENGTH
    ensures forall i :: 0 <= i < |HearAll(s).text| ==> Printable(HearAll(s).text[i])
  {
    if s != [] {
      HeardWell(s[..|s| - 1]);
    }
  }

  /** The lines a player gets to see. */
  function Shown(lines: seq<Line>, me: byte): seq<seq<byte>> {
    if lines == [] then []
    else
      var last := lines[|lines| - 1];
      Shown(lines[..|lines| - 1], me)
        + if last.text != [] && (last.dest == me || last.dest == HU_BROADCAST) then [last.text] else []
  }

  lemma ShownMore(lines: seq<Line>, line: Line, me: byte)
    ensures Shown(lines + [line], me) == Shown(lines, me) + Shown([line], me)
  {
  }

  /** A line reaches a player: it says something, to him or to everybody. */
  predicate Reaches(line: Line, me: byte) {
    line.text != [] && (line.dest == me || line.dest == 5)
  }

  /** The numbers of lines, in rising order, are just those of the lines that reach a player. */
  ghost predicate Reaching(lines: seq<Line>, me: byte, numbers: seq<nat>) {
    && (forall i, j :: 0 <= i < j < |numbers| ==> numbers[i] < numbers[j])
    && (forall k: nat :: k in numbers <==> k < |lines| && Reaches(lines[k], me))
  }

  /** The messages are the texts of those lines and no others, in order. */
  ghost predicate Received(messages: seq<seq<byte>>, lines: seq<Line>, me: byte, numbers: seq<nat>) {
    && Reaching(lines, me, numbers) && |messages| == |numbers|
    && forall i :: 0 <= i < |numbers| ==> numbers[i] < |lines| && messages[i] == lines[numbers[i]].text
  }

  lemma {:induction false} ShownExactly(lines: seq<Line>, me: byte) returns (numbers: seq<nat>)
    ensures Received(Shown(lines, me), lines, me, numbers)
    decreases |lines|
  {
    hide Received, Reaches;
    if lines == [] {
      numbers := [];
      assert Received([], [], me, []) by { NothingReceived(me); }
    } else {
      var n := |lines| - 1;
      numbers := ShownExactly(lines[..n], me);
      ReceivedMore(Shown(lines[..n], me), lines, me, numbers);
      if Reaches(lines[n], me) {
        numbers := numbers + [n];
      }
      ShownLast(lines, me);
    }
  }

  lemma NothingReceived(me: byte)
    ensures Received([], [], me, [])
  {
  }

  lemma ShownLast(lines: seq<Line>, me: byte)
    requires lines != []
    ensures var n := |lines| - 1;
      Shown(lines, me) == if Reaches(lines[n], me) then Shown(lines[..n], me) + [lines[n].text] else Shown(lines[..n], me)
  {
  }

  lemma ReceivedMore(messages: seq<seq<byte>>, lines: seq<Line>, me: byte, numbers: seq<nat>)
    requires lines != [] && Received(messages, lines[..|lines| - 1], me, numbers)
    ensures var n := |lines| - 1;
      if Reaches(lines[n], me) then Received(messages + [lines[n].text], lines, me, numbers + [n])
      else Received(messages, lines, me, numbers)
  {
    hide Reaching, Reaches;
    var n := |lines| - 1;
    ReachingMore(lines, me, numbers);
    assert forall i :: 0 <= i < |numbers| ==> lines[numbers[i]] == lines[..n][numbers[i]];
  }

  lemma ReachingMore(lines: seq<Line>, me: byte, numbers: seq<nat>)
    requires lines != [] && Reaching(lines[..|lines| - 1], me, numbers)
    ensures Reaching(lines, me, if Reaches(lines[|lines| - 1], me) then numbers + [|lines| - 1] else numbers)
  {
    hide Reaches;
    var n := |lines| - 1;
    assert forall i :: 0 <= i < |numbers| ==> numbers[i] in numbers;
    assert forall k :: 0 <= k < n ==> lines[..n][k] == lines[k];
    var more := numbers + [n];
    assert forall k: nat :: k in more <==> k in numbers || k == n;
  }

  /** A line after some keys. */
  function TypedAll(text: seq<byte>, keys: seq<byte>): seq<byte> {
    if keys == [] then text else Typed(TypedAll(text, keys[..|keys| - 1]), 0, keys[|keys| - 1])
  }

  predicate PlainKeys(keys: seq<byte>) {
    forall c :: c in keys ==> !Control(c) && c != KEY_ENTER
  }

  /** What a listener makes of more characters. */
  function HearFrom(h: Heard, t: seq<byte>): Heard {
    if t == [] then h else Hear(HearFrom(h, t[..|t| - 1]), t[|t| - 1])
  }

  lemma {:induction false} HearAppend(s: seq<byte>, t: seq<byte>)
    ensures HearAll(s + t) == HearFrom(HearAll(s), t)
    decreases |t|
  {
    if t == [] {
      assert s + t == s;
    } else {
      assert (s + t)[..|s + t| - 1] == s + t[..|t| - 1];
      HearAppend(s, t[..|t| - 1]);
    }
  }

  /** What is queued for a macro: Enter, its characters and Enter. */
  function MacroStream(macro: seq<byte>): seq<byte> {
    [KEY_ENTER] + macro + [KEY_ENTER]
  }

  /** What a macro means: the line typed before it, its lines, and nothing left over. */
  lemma MacroHeard(h: Heard, macro: seq<byte>)
    ensures var r := HearFrom(h, MacroStream(macro));
      && r == Hear(HearFrom(Hear(h, KEY_ENTER), macro), KEY_ENTER)
      && r.text == []
  {
    FromAppend(h, [KEY_ENTER], macro);
    FromAppend(h, [KEY_ENTER] + macro, [KEY_ENTER]);
    FromOne(h, KEY_ENTER);
    FromOne(HearFrom(Hear(h, KEY_ENTER), macro), KEY_ENTER);
  }

  lemma FromOne(h: Heard, c: byte)
    ensures HearFrom(h, [c]) == Hear(h, c)
  {
    assert HearFrom(h, [c][..0]) == h;
  }

  lemma {:induction false} FromAppend(h: Heard, s: seq<byte>, t: seq<byte>)
    ensures HearFrom(h, s + t) == HearFrom(HearFrom(h, s), t)
    decreases |t|
  {
    if t == [] {
      assert s + t == s;
    } else {
      assert (s + t)[..|s + t| - 1] == s + t[..|t| - 1];
      FromAppend(h, s, t[..|t| - 1]);
    }
  }

  predicate IsPrefix(s: seq<Line>, t: seq<Line>) {
    s <= t
  }

  /** However a macro is written, one line is finished before it and one at its end, and one more for each Enter
      in it; all go where the destinations in it say. */
  lemma {:induction false} LineCount(h: Heard, t: seq<byte>)
    ensures |HearFrom(h, t).lines| == |h.lines| + Enters(t) && IsPrefix(h.lines, HearFrom(h, t).lines)
  {
    if t != [] {
      LineCount(h, t[..|t| - 1]);
    }
  }

  function Enters(t: seq<byte>): nat {
    if t == [] then 0 else Enters(t[..|t| - 1]) + if t[|t| - 1] == KEY_ENTER then 1 else 0
  }

  lemma {:induction false} FromKeys(h: Heard, keys: seq<byte>)
    requires PlainKeys(keys)
    ensures HearFrom(h, keys) == h.(text := TypedAll(h.text, keys))
  {
    if keys != [] {
      FromKeys(h, keys[..|keys| - 1]);
    }
  }

  /** A macro of keys alone is a line of its own. */
  lemma PlainMacro(h: Heard, macro: seq<byte>)
    requires PlainKeys(macro)
    ensures HearFrom(h, MacroStream(macro))
         == Heard(h.dest, [], h.lines + [Line(h.dest, h.text), Line(h.dest, TypedAll([], macro))])
  {
    MacroHeard(h, macro);
    FromKeys(Hear(h, KEY_ENTER), macro);
  }

  lemma Appended(s: seq<byte>, t: seq<byte>, c: byte)
    ensures s + t + [c] == s + (t + [c])
  {
  }

  /** The keys after which sender and listener no longer agree: a dropped one that would have done
      something, and Escape on a line that is not empty. */
  predicate Harmful(text: seq<byte>, c: byte, dropped: bool) {
    (dropped && (c == KEY_ENTER || Typed(text, 0, c) != text)) || (c == KEY_ESCAPE && text != [])
  }

  // ---------- the sender ----------

  const KEY_RSHIFT: nat := 0x80 + 0x36
  const KEY_RALT: nat := 0x80 + 0x38
  const HU_MSGTIMEOUT: nat := 4 * 35

  /** A key event; `data2` is the character typed. */
  datatype Event = Event(down: bool, data1: nat, data2: nat)

  /** The keys and macros of a player's configuration, and the game. */
  datatype Setup = Setup(keyMessageRefresh: nat, keyMultiMsg: nat, keyMultiMsgPlayer: seq<nat>, chatMacros: seq<seq<byte>>,
                         netgame: bool, playeringame: seq<bool>, consoleplayer: nat)

  predicate GoodSetup(s: Setup) {
    && |s.keyMultiMsgPlayer| == |s.playeringame| == MAXPLAYERS && s.consoleplayer < MAXPLAYERS
    && |s.chatMacros| == 10 && forall i :: 0 <= i < 10 ==> 0 !in s.chatMacros[i]
  }

  /** What an event asks for. */
  datatype Action = Nothing | Alt(held: bool) | Refresh | OpenTo(to: byte) | Macro(n: nat) | Type(c: byte)

  /** The players in the game among the first `n`. */
  function CountPlayers(playeringame: seq<bool>, n: nat): nat
    requires n <= |playeringame|
  {
    if n == 0 then 0 else CountPlayers(playeringame, n - 1) + if playeringame[n - 1] then 1 else 0
  }

  /** The first player from `i` on who has the key, is in the game and is not the player himself. */
  function Addressed(s: Setup, data2: nat, i: nat): (to: Option<byte>)
    requires GoodSetup(s) && i <= MAXPLAYERS
    ensures to.Some? ==> 1 <= to.value <= MAXPLAYERS
    decreases MAXPLAYERS - i
  {
    if i == MAXPLAYERS then None
    else if data2 == s.keyMultiMsgPlayer[i] && s.playeringame[i] && i != s.consoleplayer then Some(i + 1)
    else Addressed(s, data2, i + 1)
  }

  /** The digit of a key, in the arithmetic of an `unsigned char`. */
  function Digit(data1: nat): (c: byte) {
    (data1 + 256 - 0x30) % 256
  }

  /** What an event means, by the state of the line and of Alt. */
  function ActionFor(s: Setup, chatOn: bool, altDown: bool, e: Event): Action
    requires GoodSetup(s)
  {
    if e.data1 == KEY_RSHIFT then Nothing
    else if e.data1 == KEY_RALT then Alt(e.down)
    else if !e.down then Nothing
    else if chatOn then
      if !altDown then Type(e.data2 % 256) else if Digit(e.data1) > 9 then Nothing else Macro(Digit(e.data1))
    else if e.data1 == s.keyMessageRefresh then Refresh
    else if !s.netgame then Nothing
    else if e.data2 == s.keyMultiMsg then OpenTo(HU_BROADCAST)
    else if CountPlayers(s.playeringame, MAXPLAYERS) <= 2 then Nothing
    else
      var to := Addressed(s, e.data2, 0);
      if to.Some? then OpenTo(to.value) else Nothing
  }

  /** Whether the event goes no further. */
  predicate EatsEvent(a: Action) {
    match a
    case Nothing => false
    case Alt(_) => false
    case Refresh => true
    case OpenTo(_) => true
    case Macro(_) => true
    case Type(c) => Eaten(c)
  }

  class Sender {
    const wChat: InputText
    const queue: ChatQueue
    const setup: Setup
    var chatOn: bool
    var altDown: bool
    var messageOn: bool
    var messageCounter: nat

    /** Everything queued so far, whether anything was dropped, and the lines finished. */
    ghost var sent: seq<byte>
    ghost var dest: byte
    ghost var lines: seq<Line>

    ghost predicate Valid()
      reads this`sent, wChat, wChat.l, queue, queue.chatchars
    {
      && wChat.Valid() && queue.Valid() && wChat.l != queue.chatchars && wChat.lm == 0
      && GoodSetup(setup) && 0 !in sent
    }

    /** The stream queued so far tells a listener just what the sender has on the screen. */
    ghost predicate InStep()
      reads this, wChat, wChat.l
      requires wChat.Valid()
    {
      var h := HearAll(sent);
      && h.lines == lines && h.text == (if chatOn then wChat.Text() else [])
      && (chatOn ==> h.dest == dest)
    }

    constructor (setup: Setup)
      requires GoodSetup(setup)
      ensures this.setup == setup && Valid() && InStep() && !chatOn && sent == [] && queue.Contents() == []
      ensures fresh(wChat) && fresh(wChat.l) && fresh(queue) && fresh(queue.chatchars)
    {
      this.setup := setup;
      wChat := new InputText();
      queue := new ChatQueue();
      chatOn, altDown, messageOn, messageCounter := false, false, false, 0;
      sent, dest, lines := [], 0, [];
    }

    /** Queues one character. */
    method Say(c: byte) returns (dropped: bool)
      requires Valid() && c != 0
      modifies this`sent, queue, queue.chatchars
      ensures Valid() && dropped == (|old(queue.Contents())| == 127)
      ensures queue.Contents() == if dropped then old(queue.Contents()) else old(queue.Contents()) + [c]
      ensures sent == if dropped then old(sent) else old(sent) + [c]
    {
      dropped := queue.Queue(c);
      if !dropped {
        sent := sent + [c];
      }
    }

    /** Opens the input line for a destination. */
    method Open(to: byte) returns (dropped: bool)
      requires Valid() && !chatOn && 1 <= to <= HU_BROADCAST
      modifies this`chatOn, this`sent, this`dest, wChat, wChat.l, queue, queue.chatchars
      ensures Valid() && chatOn && wChat.Text() == [] && dest == to
      ensures dropped == (|old(queue.Contents())| == 127)
      ensures queue.Contents() == if dropped then old(queue.Contents()) else old(queue.Contents()) + [to]
      ensures sent == if dropped then old(sent) else old(sent) + [to]
      ensures old(InStep()) ==> (InStep() <==> !dropped || HearAll(old(sent)).dest == to)
    {
      chatOn, dest := true, to;
      wChat.Reset();
      dropped := Say(to);
      HearMore(old(sent), to);
    }

    /** A key while the input line is open. */
    method TypeKey(c: byte) returns (eatkey: bool, dropped: bool)
      requires Valid() && chatOn
      modifies this`chatOn, this`sent, this`lines, wChat`len, wChat`needsupdate, wChat.l, queue, queue.chatchars
      ensures Valid() && eatkey == Eaten(c) && wChat.Text() == Typed(old(wChat.Text()), 0, c)
      ensures dropped == (eatkey && |old(queue.Contents())| == 127)
      ensures chatOn == (c != KEY_ENTER && c != KEY_ESCAPE)
      ensures lines == if c == KEY_ENTER then old(lines) + [Line(dest, old(wChat.Text()))] else old(lines)
      ensures queue.Contents() == if eatkey && !dropped then old(queue.Contents()) + [c] else old(queue.Contents())
      ensures sent == if eatkey && !dropped then old(sent) + [c] else old(sent)
      ensures old(InStep()) ==> (InStep() <==> !Harmful(old(wChat.Text()), c, dropped))
    {
      dropped := false;
      eatkey := wChat.KeyIn(c);
      if eatkey {
        dropped := Say(c);
        HearMore(old(sent), c);
      }
      if c == KEY_ENTER {
        chatOn := false;
        lines := lines + [Line(dest, wChat.Text())];
      } else if c == KEY_ESCAPE {
        chatOn := false;
      }
    }

    /** `numplayers` */
    method NumPlayers() returns (numplayers: nat)
      requires GoodSetup(setup)
      ensures numplayers == CountPlayers(setup.playeringame, MAXPLAYERS)
    {
      numplayers := 0;
      for i := 0 to MAXPLAYERS
        invariant numplayers == CountPlayers(setup.playeringame, i)
      {
        if setup.playeringame[i] {
          numplayers := numplayers + 1;
        }
      }
    }

    /** Queues characters one by one; `t` are those that were not dropped. */
    method SayAll(cs: seq<byte>) returns (dropped: bool, ghost t: seq<byte>)
      requires Valid() && 0 !in cs
      modifies this`sent, queue, queue.chatchars
      ensures Valid() && (!dropped ==> t == cs)
      ensures sent == old(sent) + t && queue.Contents() == old(queue.Contents()) + t
    {
      dropped, t := false, [];
      var i := 0;
      while i < |cs|
        invariant 0 <= i <= |cs| && Valid()
        invariant sent == old(sent) + t && queue.Contents() == old(queue.Contents()) + t
        invariant !dropped ==> t == cs[..i]
      {
        Appended(old(sent), t, cs[i]);
        Appended(old(queue.Contents()), t, cs[i]);
        assert cs[..i] + [cs[i]] == cs[..i + 1];
        var d := Say(cs[i]);
        t := if d then t else t + [cs[i]];
        dropped := dropped || d;
        i := i + 1;
      }
      assert cs[..i] == cs;
    }

    /** A macro, after Alt and a digit. The line typed so far is finished first, and so sent on its own; an Enter
        in the macro finishes a line, and a destination in it changes where the rest goes. */
    method SendMacro(macro: seq<byte>) returns (dropped: bool, ghost t: seq<byte>)
      requires Valid() && chatOn && 0 !in macro
      modifies this`chatOn, this`sent, this`lines, queue, queue.chatchars
      ensures Valid() && !chatOn
      ensures lines == HearFrom(Heard(dest, old(wChat.Text()), old(lines)), MacroStream(macro)).lines
      ensures old(InStep()) && !dropped ==> InStep()
      ensures sent == old(sent) + t && queue.Contents() == old(queue.Contents()) + t
    {
      ghost var h := Heard(dest, wChat.Text(), lines);
      HearAppend(sent, MacroStream(macro));
      MacroHeard(HearAll(sent), macro);
      dropped, t := SayAll(MacroStream(macro));
      chatOn := false;
      lines := HearFrom(h, MacroStream(macro)).lines;
    }

    /** A key that may open a line to one player. */
    method OpenPrivate(data2: nat) returns (found: bool, dropped: bool)
      requires Valid() && !chatOn
      modifies this`chatOn, this`sent, this`dest, wChat, wChat.l, queue, queue.chatchars
      ensures Valid() && found == chatOn == Addressed(setup, data2, 0).Some?
      ensures if found then Some(dest) == Addressed(setup, data2, 0) else dest == old(dest)
      ensures exists t :: sent == old(sent) + t && queue.Contents() == old(queue.Contents()) + t
      ensures old(InStep()) && !dropped ==> InStep()
    {
      found, dropped := false, false;
      assert sent == sent + [] && queue.Contents() == queue.Contents() + [];
      var i := 0;
      while i < MAXPLAYERS
        invariant 0 <= i <= MAXPLAYERS && !found && !dropped && Valid() && !chatOn && dest == old(dest)
        invariant sent == old(sent) && queue.Contents() == old(queue.Contents())
        invariant old(InStep()) ==> InStep()
        invariant Addressed(setup, data2, 0) == Addressed(setup, data2, i)
      {
        if data2 == setup.keyMultiMsgPlayer[i] && setup.playeringame[i] && i != setup.consoleplayer {
          found := true;
          dropped := Open(i + 1);
          break;
        }
        i := i + 1;
      }
    }

    /** What the sender has said after an action, as he means it. */
    ghost function LinesAfter(a: Action): seq<Line>
      reads this, wChat, wChat.l
      requires wChat.Valid() && (a.Macro? ==> a.n < |setup.chatMacros|)
    {
      match a
      case Type(c) => if c == KEY_ENTER then lines + [Line(dest, wChat.Text())] else lines
      case Macro(n) => HearFrom(Heard(dest, wChat.Text(), lines), MacroStream(setup.chatMacros[n])).lines
      case _ => lines
    }

    /** Escape on a line that is not empty. */
    ghost predicate Abandons(a: Action)
      reads wChat, wChat.l
      requires wChat.Valid()
    {
      a == Type(KEY_ESCAPE) && wChat.Text() != []
    }

    /** `HU_Responder`: the tests in the program's order come to what the event means. */
    method Responder(e: Event) returns (eatkey: bool, dropped: bool)
      requires Valid()
      modifies this, wChat, wChat.l, queue, queue.chatchars
      ensures Valid()
      ensures exists t :: sent == old(sent) + t && queue.Contents() == old(queue.Contents()) + t
      ensures var a := old(ActionFor(setup, chatOn, altDown, e));
        && eatkey == EatsEvent(a)
        && altDown == (if a.Alt? then a.held else old(altDown))
        && chatOn == (match a
                      case OpenTo(_) => true
                      case Macro(_) => false
                      case Type(c) => c != KEY_ENTER && c != KEY_ESCAPE
                      case _ => old(chatOn))
        && dest == (if a.OpenTo? then a.to else old(dest))
        && messageCounter == (if a.Refresh? then 140 else old(messageCounter))
        && messageOn == (a.Refresh? || old(messageOn))
      ensures lines == old(LinesAfter(ActionFor(setup, chatOn, altDown, e)))
      ensures old(InStep()) && !dropped && !old(Abandons(ActionFor(setup, chatOn, altDown, e))) ==> InStep()
    {
      hide HearAll, HearFrom, ChatLine.Typed, ChatLine.ToUpper, Addressed, CountPlayers, Digit;
      eatkey, dropped := false, false;
      assert sent == sent + [] && queue.Contents() == queue.Contents() + [];
      var numplayers := NumPlayers();
      if e.data1 == KEY_RSHIFT {
        return;
      } else if e.data1 == KEY_RALT {
        altDown := e.down;
        return;
      }
      if !e.down {
        return;
      }
      if !chatOn {
        if e.data1 == setup.keyMessageRefresh {
          messageOn, messageCounter, eatkey := true, HU_MSGTIMEOUT, true;
        } else if setup.netgame && e.data2 == setup.keyMultiMsg {
          eatkey := true;
          dropped := Open(HU_BROADCAST);
        } else if setup.netgame && numplayers > 2 {
          eatkey, dropped := OpenPrivate(e.data2);
        }
      } else if altDown {
        var c := Digit(e.data1);
        if c > 9 {
          return;
        }
        ghost var t;
        dropped, t := SendMacro(setup.chatMacros[c]);
        eatkey := true;
      } else {
        eatkey, dropped := TypeKey(e.data2 % 256);
      }
    }
  }

  // ---------- the receiver ----------

  class Receiver {
    const wInput: InputText
    /** `consoleplayer + 1` */
    const me: byte
    var chatDest: byte
    var messages: seq<seq<byte>>

    ghost var heard: seq<byte>

    ghost predicate Valid()
      reads this, wInput, wInput.l
    {
      var h := HearAll(heard);
      && wInput.Valid() && wInput.lm == 0
      && wInput.Text() == h.text && chatDest == h.dest && messages == Shown(h.lines, me)
    }

    constructor (me: byte)
      ensures Valid() && heard == [] && messages == [] && fresh(wInput) && fresh(wInput.l) && this.me == me
    {
      this.me, chatDest, messages, heard := me, 0, [], [];
      wInput := new InputText();
    }

    /** A finished line is shown if it is for this player, and cleared. */
    method Finish()
      requires wInput.Valid()
      modifies this`messages, wInput, wInput.l
      ensures wInput.Valid() && wInput.Text() == [] && wInput.lm == 0
      ensures messages == old(messages) + Shown([Line(chatDest, old(wInput.Text()))], me)
    {
      ghost var line := Line(chatDest, wInput.Text());
      assert Shown([line][..0], me) == [];
      if wInput.len != 0 && (chatDest == me || chatDest == HU_BROADCAST) {
        messages := messages + [wInput.l[..wInput.len]];
      }
      wInput.Reset();
    }

    /** A key of the other player. */
    method Key(c: byte)
      requires wInput.Valid() && wInput.lm == 0
      modifies this`messages, wInput, wInput.l
      ensures wInput.Valid() && wInput.lm == 0
      ensures wInput.Text() == if c == KEY_ENTER then [] else Typed(old(wInput.Text()), 0, c)
      ensures messages == if c == KEY_ENTER then old(messages) + Shown([Line(chatDest, old(wInput.Text()))], me)
                          else old(messages)
    {
      var rc := wInput.KeyIn(c);
      if rc && c == KEY_ENTER {
        Finish();
      }
    }

    /** The chat part of `HU_Ticker`, for one other player's character of this tic; 0 is none. */
    method Ticker(c: byte)
      requires Valid()
      modifies this`chatDest, this`messages, this`heard, wInput, wInput.l
      ensures Valid() && heard == if c == 0 then old(heard) else old(heard) + [c]
    {
      if c == 0 {
        return;
      }
      HearMore(heard, c);
      ShownMore(HearAll(heard).lines, Line(chatDest, wInput.Text()), me);
      if Control(c) {
        chatDest := c;
      } else {
        Key(c);
      }
      heard := heard + [c];
    }
  }

  // ---------- both ----------

  lemma HandedOver(sent: seq<byte>, heard: seq<byte>, inflight: seq<byte>, waiting: seq<byte>)
    requires sent == heard + inflight + waiting && inflight != []
    ensures inflight[0] in sent && sent == heard + [inflight[0]] + inflight[1..] + waiting
  {
  }

  class Link {
    const sender: Sender
    const receiver: Receiver
    /** Characters on their way, inside tic commands. */
    var inflight: seq<byte>

    ghost predicate Valid()
      reads this, sender, sender.wChat, sender.wChat.l, sender.queue, sender.queue.chatchars
      reads receiver, receiver.wInput, receiver.wInput.l
    {
      && sender.Valid() && receiver.Valid()
      && sender.wChat != receiver.wInput && sender.wChat.l != receiver.wInput.l
      && sender.queue.chatchars != receiver.wInput.l
      && sender.sent == receiver.heard + inflight + sender.queue.Contents()
    }

    constructor (sender: Sender, receiver: Receiver)
      requires sender.Valid() && receiver.Valid() && sender.sent == [] == receiver.heard
      requires sender.queue.Contents() == []
      requires sender.wChat != receiver.wInput && sender.wChat.l != receiver.wInput.l
      requires sender.queue.chatchars != receiver.wInput.l
      ensures Valid() && this.sender == sender && this.receiver == receiver && inflight == []
    {
      this.sender, this.receiver, inflight := sender, receiver, [];
    }

    /** An event at the sender's keyboard. */
    method Key(e: Event) returns (eaten: bool, dropped: bool)
      requires Valid()
      modifies sender, sender.wChat, sender.wChat.l, sender.queue, sender.queue.chatchars
      ensures Valid()
      ensures sender.lines == old(sender.LinesAfter(ActionFor(sender.setup, sender.chatOn, sender.altDown, e)))
      ensures dropped || old(sender.Abandons(ActionFor(sender.setup, sender.chatOn, sender.altDown, e)))
           || (old(sender.InStep()) ==> sender.InStep())
    {
      eaten, dropped := sender.Responder(e);
    }

    /** A tic is built: it carries the next character, if any. */
    method BuildTic()
      requires Valid()
      modifies this`inflight, sender.queue`tail
      ensures Valid() && inflight + sender.queue.Contents() == old(inflight + sender.queue.Contents())
      ensures |sender.queue.Contents()| == |old(sender.queue.Contents())| - (if old(sender.queue.Contents()) == [] then 0 else 1)
      ensures old(sender.InStep()) ==> sender.InStep()
    {
      ghost var waiting := sender.queue.Contents();
      assert waiting != [] ==> waiting[0] in sender.sent;
      var c := sender.queue.Dequeue();
      if c != 0 {
        inflight := inflight + [c];
      }
    }

    /** A tic with a character is run at the receiver. */
    method Deliver()
      requires Valid() && inflight != []
      modifies this`inflight, receiver`chatDest, receiver`messages, receiver`heard, receiver.wInput, receiver.wInput.l
      ensures Valid() && inflight == old(inflight)[1..]
    {
      hide HearAll, Shown, InputText.Text, Sender.InStep;
      HandedOver(sender.sent, receiver.heard, inflight, sender.queue.Contents());
      receiver.Ticker(inflight[0]);
      inflight := inflight[1..];
    }

    /** A tic is run at the receiver. */
    method RunTic()
      requires Valid()
      modifies this`inflight, receiver`chatDest, receiver`messages, receiver`heard, receiver.wInput, receiver.wInput.l
      ensures Valid() && inflight == if old(inflight) == [] then [] else old(inflight)[1..]
      ensures old(sender.InStep()) ==> sender.InStep()
    {
      if inflight == [] {
        receiver.Ticker(0);
      } else {
        Deliver();
      }
    }

    /** At every moment the receiver has the first of the sender's lines; when nothing is on its way, all of
        them, and the same unfinished line. */
    lemma Agreement()
      requires Valid() && sender.InStep()
      ensures HearAll(receiver.heard).lines <= sender.lines
      ensures inflight == [] && sender.queue.Contents() == [] ==>
        && HearAll(receiver.heard).lines == sender.lines
        && receiver.messages == Shown(sender.lines, receiver.me)
        && receiver.wInput.Text() == (if sender.chatOn then sender.wChat.Text() else [])
    {
      var rest := inflight + sender.queue.Contents();
      assert sender.sent == receiver.heard + rest;
      LinesGrow(receiver.heard, rest);
      assert rest == [] ==> sender.sent == receiver.heard;
    }

    /** One tic at both ends. */
    method Tic()
      requires Valid()
      modifies this`inflight, sender.queue`tail
      modifies receiver`chatDest, receiver`messages, receiver`heard, receiver.wInput, receiver.wInput.l
      ensures Valid() && (old(sender.InStep()) ==> sender.InStep())
      ensures |inflight| + |sender.queue.Contents()| < |old(inflight)| + |old(sender.queue.Contents())|
           || (inflight == [] && sender.queue.Contents() == [])
    {
      BuildTic();
      ghost var coming := inflight + sender.queue.Contents();
      RunTic();
    }

    /** As soon as nobody types, enough tics deliver everything. */
    method Drain()
      requires Valid() && sender.InStep()
      modifies this`inflight, sender.queue`tail
      modifies receiver`chatDest, receiver`messages, receiver`heard, receiver.wInput, receiver.wInput.l
      ensures Valid() && sender.InStep() && inflight == [] && sender.queue.Contents() == []
    {
      while !sender.queue.IsEmpty() || inflight != []
        invariant Valid() && sender.InStep()
        decreases |inflight| + |sender.queue.Contents()|
      {
        Tic();
      }
    }

    /** Everything typed arrives: the player gets the texts of just those lines, in order, that are not empty and go to him
        or to everybody, and the unfinished line is the same at both ends. */
    method Settle() returns (ghost numbers: seq<nat>)
      requires Valid() && sender.InStep()
      modifies this`inflight, sender.queue`tail
      modifies receiver`chatDest, receiver`messages, receiver`heard, receiver.wInput, receiver.wInput.l
      ensures Received(receiver.messages, sender.lines, receiver.me, numbers)
      ensures receiver.wInput.Valid()
           && receiver.wInput.Text() == (if sender.chatOn then sender.wChat.Text() else [])
    {
      Drain();
      Agreement();
      numbers := ShownExactly(sender.lines, receiver.me);
    }
  }

  // ---------- Escape ----------

  /** After Escape the text stays with the listener, and the next line, opened for `to` and typed with `keys`,
      is heard behind it, where the sender has the keys alone. */
  lemma EscapeLeftover(s: seq<byte>, to: byte, keys: seq<byte>)
    requires 1 <= to <= HU_BROADCAST && PlainKeys(keys)
    ensures HearAll(s + ([to] + keys + [KEY_ENTER]))
         == Heard(to, [], HearAll(s).lines + [Line(to, TypedAll(HearAll(s).text, keys))])
  {
    var h := HearAll(s);
    HearAppend(s, [to] + keys + [KEY_ENTER]);
    FromAppend(h, [to] + keys, [KEY_ENTER]);
    FromAppend(h, [to], keys);
    FromOne(h, to);
    FromKeys(Hear(h, to), keys);
    FromOne(HearFrom(Hear(h, to), keys), KEY_ENTER);
  }

  /** How often Backspace is pressed on the empty line: the sender sees nothing happen. */
  function Erasures(keys: seq<byte>): (n: nat)
    ensures n <= |keys|
  {
    if keys == [] then 0
    else
      var front := keys[..|keys| - 1];
      Erasures(front) + if keys[|keys| - 1] == KEY_BACKSPACE && TypedAll([], front) == [] then 1 else 0
  }

  /** What is left of `t` after `n` erasures. */
  function Remains(t: seq<byte>, n: nat): (r: seq<byte>)
    ensures |r| <= |t| && (r == [] <==> |t| <= n)
  {
    if n < |t| then t[..|t| - n] else []
  }

  /** No key is refused because the line is full. */
  predicate NeverFull(text: seq<byte>, keys: seq<byte>) {
    keys == []
    || (NeverFull(text, keys[..|keys| - 1])
        && (Printable(keys[|keys| - 1]) ==> |TypedAll(text, keys[..|keys| - 1])| < HU_MAXLINELENGTH))
  }

  lemma {:induction false} TypedBehind(t: seq<byte>, keys: seq<byte>)
    requires NeverFull(t, keys)
    ensures TypedAll(t, keys) == Remains(t, Erasures(keys)) + TypedAll([], keys)
  {
    if keys != [] {
      var front, c := keys[..|keys| - 1], keys[|keys| - 1];
      TypedBehind(t, front);
      TypedOnce(Remains(t, Erasures(front)), TypedAll([], front), c);
      if c == KEY_BACKSPACE && TypedAll([], front) == [] {
        RemainsLess(t, Erasures(front));
      }
    }
  }

  lemma RemainsLess(t: seq<byte>, n: nat)
    ensures var r := Remains(t, n); Remains(t, n + 1) == if r == [] then [] else r[..|r| - 1]
  {
  }

  lemma TypedOnce(r: seq<byte>, text: seq<byte>, c: byte)
    requires Printable(c) ==> |r| + |text| < HU_MAXLINELENGTH
    ensures Typed(r + text, 0, c)
         == if c == KEY_BACKSPACE && text == [] then (if r == [] then [] else r[..|r| - 1])
            else r + Typed(text, 0, c)
  {
    if text == [] {
      assert r + text == r;
    } else {
      assert (r + text)[..|r + text| - 1] == r + text[..|text| - 1];
    }
  }

  /** As long as the line never overflows while it is typed, the listener gets the line the sender means exactly when the keys
      contain enough erasures to delete what Escape left behind. */
  lemma EscapeExactly(s: seq<byte>, to: byte, keys: seq<byte>)
    requires 1 <= to <= HU_BROADCAST && PlainKeys(keys) && NeverFull(HearAll(s).text, keys)
    ensures HearAll(s + ([to] + keys + [KEY_ENTER])).lines == HearAll(s).lines + [Line(to, TypedAll([], keys))]
            <==> |HearAll(s).text| <= Erasures(keys)
  {
    hide HearAll, HearFrom, TypedAll, Remains, Erasures;
    var h := HearAll(s);
    EscapeLeftover(s, to, keys);
    TypedBehind(h.text, keys);
    SameLast(h.lines, Line(to, TypedAll(h.text, keys)), Line(to, TypedAll([], keys)));
    SameBehind(Remains(h.text, Erasures(keys)), TypedAll([], keys));
  }

  lemma SameLast(lines: seq<Line>, a: Line, b: Line)
    ensures lines + [a] == lines + [b] <==> a == b
  {
    assert (lines + [a])[|lines|] == a && (lines + [b])[|lines|] == b;
  }

  lemma SameBehind(r: seq<byte>, text: seq<byte>)
    ensures r + text == text <==> r == []
  {
    assert |r + text| == |r| + |text|;
  }
}
