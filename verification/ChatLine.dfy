/** The input line of the chat, and the queue of characters waiting to be sent. */
module ChatLine {
  import opened Bytes

  const HU_MAXLINELENGTH: nat := 80
  const QUEUESIZE: nat := 128
  const HU_BROADCAST: byte := 5
  const KEY_ENTER: byte := 13
  const KEY_ESCAPE: byte := 27
  const KEY_BACKSPACE: byte := 0x7f

  function ToUpper(c: byte): byte {
    if 'a' as int <= c <= 'z' as int then c - 32 else c
  }

  /** A key that adds a character. */
  predicate Printable(c: byte) {
    ' ' as int <= ToUpper(c) <= '_' as int
  }

  predicate Eaten(c: byte) {
    Printable(c) || c == KEY_BACKSPACE || c == KEY_ENTER
  }

  /** What a key does to the text of a line whose first `lm` characters are protected. */
  function Typed(text: seq<byte>, lm: nat, c: byte): seq<byte> {
    if Printable(c) then
      if |text| == HU_MAXLINELENGTH then text else text + [ToUpper(c)]
    else if c == KEY_BACKSPACE && |text| != lm && text != [] then text[..|text| - 1]
    else text
  }

  /** `hu_itext_t`: a line of text with a left margin. */
  class InputText {
    const l: array<byte>
    var len: nat
    var lm: nat
    var needsupdate: nat

    ghost predicate Valid()
      reads this, l
    {
      && l.Length == HU_MAXLINELENGTH + 1 && lm <= len <= HU_MAXLINELENGTH && l[len] == 0
    }

    ghost function Text(): seq<byte>
      reads this, l
      requires Valid()
    {
      l[..len]
    }

    constructor ()
      ensures Valid() && Text() == [] && lm == 0 && fresh(l)
    {
      l := new byte[HU_MAXLINELENGTH + 1](i => 0);
      len, lm, needsupdate := 0, 0, 1;
    }

    method ClearTextLine()
      requires l.Length == HU_MAXLINELENGTH + 1
      modifies this`len, this`needsupdate, l
      ensures len == 0 && l[0] == 0 && needsupdate == 1
    {
      len := 0;
      l[0] := 0;
      needsupdate := 1;
    }

    method AddChar(ch: byte) returns (added: bool)
      requires Valid()
      modifies this`len, this`needsupdate, l
      ensures Valid() && added == (|old(Text())| < 80)
      ensures Text() == if added then old(Text()) + [ch] else old(Text())
    {
      if len == HU_MAXLINELENGTH {
        return false;
      }
      l[len] := ch;
      len := len + 1;
      l[len] := 0;
      needsupdate := 4;
      added := true;
    }

    /** `HUlib_delCharFromTextLine`: knows nothing of the margin. */
    method DelChar() returns (deleted: bool)
      requires Valid()
      modifies this`len, this`needsupdate, l
      ensures deleted == (old(len) != 0)
      ensures len == (if deleted then old(len) - 1 else 0) && l[..len] == old(Text())[..len] && l[len] == 0
      ensures Valid() <==> !deleted || old(lm < len)
    {
      if len == 0 {
        return false;
      }
      len := len - 1;
      l[len] := 0;
      needsupdate := 4;
      deleted := true;
    }

    /** `HUlib_delCharFromIText`: never past the left margin. */
    method DelCharAfterMargin()
      requires Valid()
      modifies this`len, this`needsupdate, l
      ensures Valid()
      ensures Text() == if old(Text()) == old(Text())[..lm] then old(Text()) else old(Text())[..old(len) - 1]
    {
      if len != lm {
        var deleted := DelChar();
      }
    }

    method EraseLine()
      requires Valid()
      modifies this`len, this`needsupdate, l
      ensures Valid() && Text() == old(Text())[..lm]
    {
      while lm != len
        invariant Valid() && Text() == old(Text())[..len] && len <= old(len)
        decreases len
      {
        var deleted := DelChar();
      }
    }

    method AddPrefix(prefix: seq<byte>)
      requires Valid()
      modifies this, l
      ensures Valid() && lm == len
      ensures Text() == if |old(Text())| + |prefix| <= HU_MAXLINELENGTH then old(Text()) + prefix
                        else old(Text()) + prefix[..HU_MAXLINELENGTH - |old(Text())|]
    {
      var i := 0;
      while i < |prefix|
        invariant 0 <= i <= |prefix| && Valid()
        invariant Text() == if |old(Text())| + i <= HU_MAXLINELENGTH then old(Text()) + prefix[..i]
                            else old(Text()) + prefix[..HU_MAXLINELENGTH - |old(Text())|]
      {
        var added := AddChar(prefix[i]);
        i := i + 1;
      }
      lm := len;
    }

    method Reset()
      requires Valid()
      modifies this, l
      ensures Valid() && Text() == [] && lm == 0
    {
      lm := 0;
      ClearTextLine();
    }

    /** `HUlib_keyInIText`: returns whether the key was eaten. */
    method KeyIn(c: byte) returns (eaten: bool)
      requires Valid()
      modifies this`len, this`needsupdate, l
      ensures Valid() && eaten == Eaten(c) && Text() == Typed(old(Text()), lm, c)
    {
      var ch := ToUpper(c);
      if ' ' as int <= ch <= '_' as int {
        var added := AddChar(ch);
      } else if ch == KEY_BACKSPACE {
        DelCharAfterMargin();
      } else if ch != KEY_ENTER {
        return false;
      }
      eaten := true;
    }
  }

  // ---------- the queue ----------

  /** The `n` characters of a ring from `tail` on. */
  function RingFrom(ring: seq<byte>, tail: nat, n: nat): (s: seq<byte>)
    requires |ring| == QUEUESIZE
    ensures |s| == n
  {
    seq(n, i requires 0 <= i < n => ring[(tail + i) % QUEUESIZE])
  }

  function Waiting(head: nat, tail: nat): nat
    requires head < QUEUESIZE && tail < QUEUESIZE
  {
    if head >= tail then head - tail else head + QUEUESIZE - tail
  }

  lemma RingPush(ring: seq<byte>, head: nat, tail: nat, c: byte)
    requires |ring| == QUEUESIZE && head < QUEUESIZE && tail < QUEUESIZE && (head + 1) % QUEUESIZE != tail
    ensures RingFrom(ring[head := c], tail, Waiting((head + 1) % QUEUESIZE, tail))
         == RingFrom(ring, tail, Waiting(head, tail)) + [c]
  {
  }

  lemma RingPop(ring: seq<byte>, head: nat, tail: nat)
    requires |ring| == QUEUESIZE && head < QUEUESIZE && tail < QUEUESIZE && head != tail
    ensures RingFrom(ring, tail, Waiting(head, tail))[1..]
         == RingFrom(ring, (tail + 1) % QUEUESIZE, Waiting(head, (tail + 1) % QUEUESIZE))
  {
  }

  class ChatQueue {
    const chatchars: array<byte>
    var head: nat
    var tail: nat

    ghost predicate Valid()
      reads this, chatchars
    {
      chatchars.Length == QUEUESIZE && head < QUEUESIZE && tail < QUEUESIZE
    }

    /** The characters waiting, oldest first. */
    ghost function Contents(): (s: seq<byte>)
      reads this, chatchars
      requires Valid()
      ensures |s| < QUEUESIZE
    {
      RingFrom(chatchars[..], tail, Waiting(head, tail))
    }

    constructor ()
      ensures Valid() && Contents() == [] && fresh(chatchars)
    {
      chatchars := new byte[QUEUESIZE](i => 0);
      head, tail := 0, 0;
    }

    predicate IsEmpty()
      reads this, chatchars
      requires Valid()
      ensures IsEmpty() <==> Contents() == []
    {
      head == tail
    }

    /** `HU_queueChatChar`: when 127 characters are waiting the new one is dropped. */
    method Queue(c: byte) returns (dropped: bool)
      requires Valid()
      modifies this`head, chatchars
      ensures Valid() && dropped == (|old(Contents())| == 127)
      ensures Contents() == if dropped then old(Contents()) else old(Contents()) + [c]
    {
      if (head + 1) % QUEUESIZE == tail {
        dropped := true;
      } else {
        RingPush(chatchars[..], head, tail, c);
        chatchars[head] := c;
        head := (head + 1) % QUEUESIZE;
        dropped := false;
      }
    }

    /** `HU_dequeueChatChar`: the oldest character, or 0. */
    method Dequeue() returns (c: byte)
      requires Valid()
      modifies this`tail
      ensures Valid()
      ensures if old(Contents()) == [] then c == 0 && Contents() == []
              else c == old(Contents())[0] && Contents() == old(Contents())[1..]
    {
      if head != tail {
        RingPop(chatchars[..], head, tail);
        c := chatchars[tail];
        tail := (tail + 1) % QUEUESIZE;
      } else {
        c := 0;
      }
    }
  }
}
