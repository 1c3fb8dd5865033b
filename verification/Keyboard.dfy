/** The keyboard ring and the line read from it (kernel/core/keyboard.c, kernel/x64/syscall.c,
    kernel/i386/syscall.c). */
module Keyboard {
  import opened Bits
  import opened Bytes
  import opened Wrappers
  import Vga

  const BACKSPACE: Byte := 8
  const NEWLINE: Byte := 10
  const RETURN: Byte := 13

  /** The character of each scancode, 0 where there is none. */
  const KEYMAP: seq<Byte> :=
    ([0, 27] + [49, 50, 51, 52, 53, 54, 55, 56, 57, 48, 45, 61] + [8, 9]
     + [113, 119, 101, 114, 116, 121, 117, 105, 111, 112, 91, 93] + [10, 0])
    + ([97, 115, 100, 102, 103, 104, 106, 107, 108, 59, 39, 96] + [0]
       + [92, 122, 120, 99, 118, 98, 110, 109, 44, 46, 47] + [0, 42, 0, 32])
    + (Zeros(18) + [45, 0, 0, 0, 43] + Zeros(47))

  /** What a scancode types; releases (bit 7 set) type nothing. */
  function CharOf(scancode: Byte): Byte {
    if scancode < 128 then KEYMAP[scancode] else 0
  }

  lemma KeymapSize()
    ensures |KEYMAP| == 128
  {
  }

  /** The rows of the keyboard, from the scancode of their first key on. */
  lemma KeyRows()
    ensures KEYMAP[2..14] == Ascii("1234567890-=")
    ensures KEYMAP[16..28] == Ascii("qwertyuiop[]")
    ensures KEYMAP[30..42] == Ascii("asdfghjkl;'`")
    ensures KEYMAP[43..54] == Ascii("\\zxcvbnm,./")
  {
    Digits();
    TopRow();
    HomeRow();
    BottomRow();
  }

  lemma Digits()
    ensures KEYMAP[2..14] == Ascii("1234567890-=")
  {
  }

  lemma TopRow()
    ensures KEYMAP[16..28] == Ascii("qwertyuiop[]")
  {
  }

  lemma HomeRow()
    ensures KEYMAP[30..42] == Ascii("asdfghjkl;'`")
  {
  }

  lemma BottomRow()
    ensures KEYMAP[43..54] == Ascii("\\zxcvbnm,./")
  {
  }

  /** Escape, backspace, tab, enter and space; the modifiers and the keys beyond type nothing, and
      nothing is typed when a key is let go. */
  lemma OtherKeys()
    ensures CharOf(1) == 27 && CharOf(14) == BACKSPACE == 8 && CharOf(15) == 9
    ensures [CharOf(28)] == [NEWLINE] == Ascii("\n") && [RETURN] == Ascii("\r") && [CharOf(57)] == Ascii(" ")
    ensures [CharOf(55), CharOf(76), CharOf(80)] == Ascii("*-+")
    ensures forall k: Byte :: k in {0, 29, 42, 54, 56} || (58 <= k && k !in {76, 80}) ==> CharOf(k) == 0
  {
  }

  // ---------- runs of key events and reads ----------

  datatype Event = Key(scancode: Byte) | Take

  /** The characters waiting and those already taken. */
  datatype Line = Line(queue: seq<Byte>, taken: seq<Byte>) {
    function After(e: Event): Line {
      match e
      case Key(scancode) =>
        if CharOf(scancode) == 0 || |queue| >= 255 then this
        else Line(queue + [CharOf(scancode)], taken)
      case Take =>
        if queue == [] then this else Line(queue[1..], taken + [queue[0]])
    }
  }

  function Run(events: seq<Event>): Line {
    if events == [] then Line([], [])
    else Run(events[..|events| - 1]).After(events[|events| - 1])
  }

  /** Keys pressed while nothing is read: the first 255 characters are kept, the others are lost. */
  lemma {:induction false} RingHolds(events: seq<Event>)
    requires forall e :: e in events ==> e.Key? && CharOf(e.scancode) != 0
    ensures |Run(events).queue| == if |events| <= 255 then |events| else 255
    ensures forall i :: 0 <= i < |Run(events).queue| ==> Run(events).queue[i] == CharOf(events[i].scancode)
  {
    hide CharOf;
    if events != [] {
      var before, last := events[..|events| - 1], events[|events| - 1];
      assert last in events && forall e :: e in before ==> e in events;
      RingHolds(before);
    }
  }

  /** How many characters wait, counted without looking at them. */
  function Level(events: seq<Event>): (n: nat)
    ensures n <= 255
  {
    if events == [] then 0
    else
      var n, e := Level(events[..|events| - 1]), events[|events| - 1];
      if e.Take? then (if n == 0 then 0 else n - 1)
      else if CharOf(e.scancode) == 0 || n == 255 then n
      else n + 1
  }

  /** Every character typed while fewer than 255 were waiting. */
  function Accepted(events: seq<Event>): seq<Byte> {
    if events == [] then []
    else
      var earlier, e := events[..|events| - 1], events[|events| - 1];
      if e.Key? && CharOf(e.scancode) != 0 && Level(earlier) < 255 then Accepted(earlier) + [CharOf(e.scancode)]
      else Accepted(earlier)
  }

  /** In every interleaving the ring is a queue of 255 places: what was taken, followed by what
      waits, is what was accepted, and no zero is among it. */
  lemma {:induction false} RingIsFifo(events: seq<Event>)
    ensures var l := Run(events);
      && l.taken + l.queue == Accepted(events)
      && |l.queue| == Level(events)
      && 0 !in l.taken + l.queue
  {
    if events != [] {
      var l, e := Run(events[..|events| - 1]), events[|events| - 1];
      RingIsFifo(events[..|events| - 1]);
      if e.Take? {
        if l.queue != [] { assert l.taken + [l.queue[0]] + l.queue[1..] == l.taken + l.queue; }
      } else {
        assert l.taken + (l.queue + [CharOf(e.scancode)]) == l.taken + l.queue + [CharOf(e.scancode)];
      }
    }
  }

  // ---------- the ring ----------

  /** The characters from tail to head, around the end of the buffer. */
  function Ring(buffer: seq<Byte>, tail: nat, head: nat): (q: seq<Byte>)
    requires |buffer| == 256 && tail < 256 && head < 256
    ensures |q| == (head - tail) % 256
  {
    if tail <= head then buffer[tail..head] else buffer[tail..] + buffer[..head]
  }

  lemma RingAt(buffer: seq<Byte>, tail: nat, head: nat, k: nat)
    requires |buffer| == 256 && tail < 256 && head < 256 && k < |Ring(buffer, tail, head)|
    ensures Ring(buffer, tail, head)[k] == buffer[if tail + k < 256 then tail + k else tail + k - 256]
  {
  }

  lemma RingPush(buffer: seq<Byte>, tail: nat, head: nat, c: Byte)
    requires |buffer| == 256 && tail < 256 && head < 256 && (head + 1) % 256 != tail
    ensures Ring(buffer[head := c], tail, (head + 1) % 256) == Ring(buffer, tail, head) + [c]
  {
    hide Ring;
    var x, y := Ring(buffer[head := c], tail, (head + 1) % 256), Ring(buffer, tail, head) + [c];
    forall k | 0 <= k < |x|
      ensures x[k] == y[k]
    {
      RingAt(buffer[head := c], tail, (head + 1) % 256, k);
      if k < |y| - 1 { RingAt(buffer, tail, head, k); }
    }
  }

  lemma RingFull(buffer: seq<Byte>, tail: nat, head: nat)
    requires |buffer| == 256 && tail < 256 && head < 256
    ensures (head + 1) % 256 == tail <==> |Ring(buffer, tail, head)| == 255
    ensures head == tail <==> Ring(buffer, tail, head) == []
  {
  }

  lemma RingPop(buffer: seq<Byte>, tail: nat, head: nat)
    requires |buffer| == 256 && tail < 256 && head < 256 && head != tail
    ensures Ring(buffer, tail, head) == [buffer[tail]] + Ring(buffer, (tail + 1) % 256, head)
  {
    hide Ring;
    var x, y := Ring(buffer, tail, head), [buffer[tail]] + Ring(buffer, (tail + 1) % 256, head);
    forall k | 0 <= k < |x|
      ensures x[k] == y[k]
    {
      RingAt(buffer, tail, head, k);
      if k > 0 { RingAt(buffer, (tail + 1) % 256, head, k - 1); }
    }
  }

  // ---------- line editing ----------

  /** A line being read into a buffer of len bytes. */
  datatype Edit = Typing(line: seq<Byte>) | Entered(text: seq<Byte>, rest: seq<Byte>)

  /** What the characters make of the line: a backspace deletes, a newline or return ends it, and
      so does filling the buffer. */
  function EditLine(line: seq<Byte>, chars: seq<Byte>, len: nat): Edit
    decreases chars
  {
    if |line| >= len then Entered(line, chars)
    else if chars == [] then Typing(line)
    else if chars[0] == BACKSPACE then EditLine(Shorter(line), chars[1..], len)
    else if chars[0] == NEWLINE || chars[0] == RETURN then Entered(line + [NEWLINE], chars[1..])
    else EditLine(line + [chars[0]], chars[1..], len)
  }

  function Shorter(line: seq<Byte>): seq<Byte> {
    if line == [] then [] else line[..|line| - 1]
  }

  /** The characters no later backspace deletes. */
  function Kept(chars: seq<Byte>): seq<Byte> {
    if chars == [] then []
    else if chars[0] == BACKSPACE || Excess(chars[1..]) > 0 then Kept(chars[1..])
    else [chars[0]] + Kept(chars[1..])
  }

  /** The backspaces that find no character of chars to delete. */
  function Excess(chars: seq<Byte>): nat {
    if chars == [] then 0
    else if chars[0] == BACKSPACE then Excess(chars[1..]) + 1
    else if Excess(chars[1..]) > 0 then Excess(chars[1..]) - 1
    else 0
  }

  function Without(line: seq<Byte>, n: nat): seq<Byte> {
    line[..if n < |line| then |line| - n else 0]
  }

  predicate Ends(c: Byte) { c == NEWLINE || c == RETURN }

  /** The text is the line less what typed deletes of it, and then what typed itself leaves. */
  ghost predicate Keeps(line: seq<Byte>, typed: seq<Byte>, text: seq<Byte>) {
    text == Without(line, Excess(typed)) + Kept(typed) && forall i :: 0 <= i < |typed| ==> !Ends(typed[i])
  }

  lemma KeepsStep(line: seq<Byte>, c: Byte, typed: seq<Byte>, text: seq<Byte>)
    requires !Ends(c) && Keeps(if c == BACKSPACE then Shorter(line) else line + [c], typed, text)
    ensures Keeps(line, [c] + typed, text)
  {
    var all := [c] + typed;
    assert all[0] == c && all[1..] == typed;
    if c == BACKSPACE {
      assert Without(line, Excess(typed) + 1) == Without(Shorter(line), Excess(typed));
    } else if Excess(typed) == 0 {
      assert line + [c] + Kept(typed) == line + ([c] + Kept(typed));
    } else {
      assert Without(line + [c], Excess(typed)) == Without(line, Excess(typed) - 1);
    }
  }

  /** The line is handed over at the first newline or return, or once it fills the buffer; typed
      are the characters before that. */
  ghost predicate EditedTo(line: seq<Byte>, chars: seq<Byte>, len: nat, typed: seq<Byte>, result: Edit) {
    typed <= chars &&
    match result
    case Typing(text) => typed == chars && |text| < len && Keeps(line, typed, text)
    case Entered(text, rest) =>
      if |typed| + |rest| < |chars| then
        (&& 0 < |text| <= len && text[|text| - 1] == NEWLINE && Keeps(line, typed, text[..|text| - 1])
         && Ends(chars[|typed|]) && rest == chars[|typed| + 1..])
      else
        |text| == len && Keeps(line, typed, text) && rest == chars[|typed|..]
  }

  /** Editing step by step keeps exactly the characters that no later backspace deletes. */
  lemma {:induction false} EditKeeps(line: seq<Byte>, chars: seq<Byte>, len: nat) returns (typed: seq<Byte>)
    requires |line| <= len
    ensures EditedTo(line, chars, len, typed, EditLine(line, chars, len))
    decreases chars
  {
    hide EditedTo;
    if |line| >= len || chars == [] || Ends(chars[0]) {
      typed := [];
      EditEnds(line, chars, len);
    } else {
      var c := chars[0];
      var next := if c == BACKSPACE then Shorter(line) else line + [c];
      var later := EditKeeps(next, chars[1..], len);
      typed := [c] + later;
      assert chars == [c] + chars[1..];
      EditStep(line, c, chars[1..], len, later, EditLine(next, chars[1..], len));
    }
  }

  lemma EditEnds(line: seq<Byte>, chars: seq<Byte>, len: nat)
    requires |line| <= len && (|line| >= len || chars == [] || Ends(chars[0]))
    ensures EditedTo(line, chars, len, [], EditLine(line, chars, len))
  {
    hide Keeps;
    KeepsNothing(line);
  }

  lemma EditStep(line: seq<Byte>, c: Byte, chars: seq<Byte>, len: nat, typed: seq<Byte>, result: Edit)
    requires !Ends(c) && EditedTo(if c == BACKSPACE then Shorter(line) else line + [c], chars, len, typed, result)
    ensures EditedTo(line, [c] + chars, len, [c] + typed, result)
  {
    hide Keeps;
    match result
    case Typing(text) =>
      KeepsStep(line, c, typed, text);
    case Entered(text, rest) =>
      assert ([c] + chars)[|typed| + 1..] == chars[|typed|..];
      if |typed| + |rest| < |chars| {
        assert ([c] + chars)[|typed| + 1] == chars[|typed|];
        assert ([c] + chars)[|typed| + 2..] == chars[|typed| + 1..];
        KeepsStep(line, c, typed, text[..|text| - 1]);
      } else {
        KeepsStep(line, c, typed, text);
      }
  }

  lemma KeepsNothing(line: seq<Byte>)
    ensures Keeps(line, [], line)
  {
  }

  /** A character and the backspace after it leave no trace, unless the character filled the line. */
  lemma BackspaceUndoes(line: seq<Byte>, c: Byte, chars: seq<Byte>, len: nat)
    requires |line| + 1 < len && c != BACKSPACE && !Ends(c)
    ensures EditLine(line, [c, BACKSPACE] + chars, len) == EditLine(line, chars, len)
  {
    var all := [c, BACKSPACE] + chars;
    assert all[1..] == [BACKSPACE] + chars && all[1..][1..] == chars && all[1..][0] == BACKSPACE;
    assert Shorter(line + [c]) == line;
  }

  /** A line is continued where the characters so far left it. */
  lemma {:induction false} EditMore(line: seq<Byte>, chars: seq<Byte>, c: Byte, len: nat)
    requires EditLine(line, chars, len).Typing?
    ensures EditLine(line, chars + [c], len) == EditLine(EditLine(line, chars, len).line, [c], len)
    decreases chars
  {
    var all := chars + [c];
    if chars == [] {
      assert all == [c];
    } else {
      assert all[0] == chars[0] && all[1..] == chars[1..] + [c];
      EditMore(if chars[0] == BACKSPACE then Shorter(line) else line + [chars[0]], chars[1..], c, len);
    }
  }

  lemma EditNext(chars: seq<Byte>, line: seq<Byte>, c: Byte, len: nat)
    requires EditLine([], chars, len) == Typing(line) && |line| < len
    ensures EditLine([], chars + [c], len) ==
      if c == BACKSPACE then Typing(Shorter(line))
      else if c == NEWLINE || c == RETURN then Entered(line + [NEWLINE], [])
      else if |line| + 1 == len then Entered(line + [c], [])
      else Typing(line + [c])
  {
    EditMore([], chars, c, len);
    assert [c][1..] == [];
  }

  // ---------- the echo ----------

  /** What sys_read prints for the characters it takes: each character, and for a backspace that
      deletes one a backspace, a space and a backspace. */
  function Echo(line: seq<Byte>, chars: seq<Byte>, len: nat): seq<Byte>
    decreases chars
  {
    if |line| >= len || chars == [] then []
    else if chars[0] == BACKSPACE then
      (if line == [] then [] else ERASE) + Echo(Shorter(line), chars[1..], len)
    else if chars[0] == NEWLINE || chars[0] == RETURN then [NEWLINE]
    else Vga.CString([chars[0], 0]) + Echo(line + [chars[0]], chars[1..], len)
  }

  const ERASE: seq<Byte> := [BACKSPACE, 32, BACKSPACE]

  lemma {:induction false} EchoMore(line: seq<Byte>, chars: seq<Byte>, c: Byte, len: nat)
    requires EditLine(line, chars, len).Typing?
    ensures Echo(line, chars + [c], len) == Echo(line, chars, len) + Echo(EditLine(line, chars, len).line, [c], len)
    decreases chars
  {
    hide Echo, EditLine, Vga.CString;
    var all := chars + [c];
    EchoStep(line, chars, len);
    EchoStep(line, all, len);
    if chars == [] {
      assert all == [c];
    } else {
      assert all[0] == chars[0] && all[1..] == chars[1..] + [c];
      EchoMore(if chars[0] == BACKSPACE then Shorter(line) else line + [chars[0]], chars[1..], c, len);
    }
  }

  lemma EchoStep(line: seq<Byte>, chars: seq<Byte>, len: nat)
    ensures chars == [] ==> Echo(line, chars, len) == []
    ensures chars == [] && |line| < len ==> EditLine(line, chars, len) == Typing(line)
    ensures chars != [] && |line| < len && !Ends(chars[0]) ==>
      var next := if chars[0] == BACKSPACE then Shorter(line) else line + [chars[0]];
      && Echo(line, chars, len) == EchoOne(line, chars[0]) + Echo(next, chars[1..], len)
      && EditLine(line, chars, len) == EditLine(next, chars[1..], len)
    ensures |line| >= len || (chars != [] && Ends(chars[0])) ==> EditLine(line, chars, len).Entered?
  {
  }

  lemma EchoNext(chars: seq<Byte>, line: seq<Byte>, c: Byte, len: nat)
    requires EditLine([], chars, len) == Typing(line) && |line| < len
    ensures Echo([], chars + [c], len) == Echo([], chars, len) + EchoOne(line, c)
  {
    EchoMore([], chars, c, len);
    assert [c][1..] == [];
    assert forall next: seq<Byte> :: Echo(next, [], len) == [];
  }

  function EchoOne(line: seq<Byte>, c: Byte): seq<Byte> {
    if c == BACKSPACE then if line == [] then [] else ERASE
    else if c == NEWLINE || c == RETURN then [NEWLINE]
    else Vga.CString([c, 0])
  }

  // ---------- when the screen shows the edited line ----------

  /** Some backspace that is consumed finds a character to delete. */
  function Deletes(line: seq<Byte>, chars: seq<Byte>, len: nat): bool
    decreases chars
  {
    if |line| >= len || chars == [] || Ends(chars[0]) then false
    else if chars[0] == BACKSPACE then line != [] || Deletes(Shorter(line), chars[1..], len)
    else Deletes(line + [chars[0]], chars[1..], len)
  }

  function TextOf(e: Edit): seq<Byte> {
    match e
    case Typing(line) => line
    case Entered(text, _) => text
  }

  /** Without a deletion the echo is the line itself. */
  lemma {:induction false} EchoIsLine(line: seq<Byte>, chars: seq<Byte>, len: nat)
    requires 0 !in chars && !Deletes(line, chars, len)
    ensures TextOf(EditLine(line, chars, len)) == line + Echo(line, chars, len)
    decreases chars
  {
    if |line| < len && chars != [] && !Ends(chars[0]) {
      var c := chars[0];
      assert c in chars && forall x :: x in chars[1..] ==> x in chars;
      EchoOfChar(c);
      EchoIsLine(if c == BACKSPACE then Shorter(line) else line + [c], chars[1..], len);
    }
  }

  lemma EchoOfChar(c: Byte)
    requires c != 0
    ensures Vga.CString([c, 0]) == [c]
  {
    assert [c, 0][1..] == [0];
  }

  /** A line never holds a backspace, and a deletion always echoes one. */
  lemma {:induction false} DeletionEchoes(line: seq<Byte>, chars: seq<Byte>, len: nat)
    requires BACKSPACE !in line
    ensures BACKSPACE !in TextOf(EditLine(line, chars, len))
    ensures Deletes(line, chars, len) ==> BACKSPACE in Echo(line, chars, len)
    decreases chars
  {
    if |line| < len && chars != [] && !Ends(chars[0]) {
      DeletionEchoes(if chars[0] == BACKSPACE then Shorter(line) else line + [chars[0]], chars[1..], len);
      if chars[0] == BACKSPACE && line != [] { assert ERASE[0] == BACKSPACE; }
    }
  }

  /** A glyph that is no blank appears among the new cells exactly when its character was typed. */
  lemma {:induction false} GlyphIsTyped(paper: seq<nat>, text: seq<Byte>, c: Byte)
    requires c != 32 && c != 10
    ensures paper <= Vga.TypeAll(paper, text)
    ensures Vga.Cell(c) in Vga.TypeAll(paper, text)[|paper|..] <==> c in text
    decreases text
  {
    if text != [] {
      var next := Vga.Type(paper, text[0]);
      var all := Vga.TypeAll(next, text[1..]);
      GlyphIsTyped(next, text[1..], c);
      assert all[|paper|..] == next[|paper|..] + all[|next|..];
      assert text == [text[0]] + text[1..];
      assert next[|paper|..] == if text[0] == 10 then Vga.Blanks(80 - |paper| % 80) else [Vga.Cell(text[0])];
    }
  }

  /** The screen gives a backspace no meaning, so the echo puts the line as edited on its paper
      exactly when nothing was deleted. */
  lemma EchoShowsLine(paper: seq<nat>, chars: seq<Byte>, len: nat)
    requires 0 !in chars
    ensures Vga.TypeAll(paper, Echo([], chars, len)) == Vga.TypeAll(paper, TextOf(EditLine([], chars, len)))
      <==> !Deletes([], chars, len)
  {
    var echo, text := Echo([], chars, len), TextOf(EditLine([], chars, len));
    if Deletes([], chars, len) {
      DeletionEchoes([], chars, len);
      GlyphIsTyped(paper, echo, BACKSPACE);
      GlyphIsTyped(paper, text, BACKSPACE);
    } else {
      EchoIsLine([], chars, len);
      assert [] + echo == echo;
    }
  }

  /** One character typed and deleted again: the line is empty, the screen has four cells more. */
  lemma ErasedStaysVisible(paper: seq<nat>)
    ensures Deletes([], [97, 8], 127) && EditLine([], [97, 8], 127) == Typing([])
    ensures Vga.TypeAll(paper, Echo([], [97, 8], 127)) == paper + [0x0F61, 0x0F08, 0x0F20, 0x0F08]
  {
    var chars := [97, BACKSPACE];
    assert chars[1..] == [BACKSPACE] && [BACKSPACE][1..] == [] && [] + [97] == [97];
    EchoOfChar(97);
    assert EditLine([97], [BACKSPACE], 127) == EditLine([], [], 127);
    assert Echo([97], [BACKSPACE], 127) == ERASE + Echo([], [], 127);
    assert Echo([], chars, 127) == [97] + ERASE;
    Vga.TypeLine(paper, [97] + ERASE);
    assert Vga.CellsOf([97] + ERASE) == [Vga.Cell(97), Vga.Cell(BACKSPACE), Vga.BLANK, Vga.Cell(BACKSPACE)];
  }

  // ---------- the device and its driver ----------

  /** The scancodes of the key events, in order. */
  function Keys(events: seq<Event>): seq<Byte> {
    if events == [] then []
    else
      var e := events[|events| - 1];
      Keys(events[..|events| - 1]) + if e.Key? then [e.scancode] else []
  }

  /** The scancodes among the controller's answers. */
  function Answers(pending: seq<Option<Byte>>): seq<Byte> {
    if pending == [] then []
    else (if pending[0].Some? then [pending[0].value] else []) + Answers(pending[1..])
  }

  // ---------- waiting for a character ----------

  /** What polling looks at: the characters waiting, the polls since the controller was last asked,
      and its answers to come. */
  datatype Ready = Ready(queue: seq<Byte>, counter: nat, pending: seq<Option<Byte>>)

  /** One poll; None if it needs an answer that is not known. */
  function AfterPoll(s: Ready): Option<Ready> {
    if s.counter + 1 < 100000 then Some(s.(counter := s.counter + 1))
    else if s.pending == [] then None
    else Some(Ready(Heard(s.queue, s.pending[0]), 0, s.pending[1..]))
  }

  function Heard(queue: seq<Byte>, answer: Option<Byte>): seq<Byte> {
    match answer
    case None => queue
    case Some(scancode) => Line(queue, []).After(Key(scancode)).queue
  }

  /** Polling once, and then for as long as no character waits; an answer that is not known does not
      matter to a character that waits already. */
  function Await(s: Ready): (r: Option<Ready>)
    ensures r.Some? ==> r.value.queue != []
    decreases |s.pending|, if s.counter < 100000 then 100000 - s.counter else 0
  {
    match AfterPoll(s)
    case None => if s.queue != [] then Some(s) else None
    case Some(t) => if t.queue != [] then Some(t) else Await(t)
  }

  lemma AwaitStep(s: Ready)
    ensures Await(s) ==
      match AfterPoll(s)
      case None => (if s.queue != [] then Some(s) else None)
      case Some(t) => (if t.queue != [] then Some(t) else Await(t))
  {
  }

  lemma AnswerNeeded(s: Ready)
    ensures AfterPoll(s) == None <==> s.counter + 1 >= 100000 && s.pending == []
    ensures AfterPoll(s).Some? && s.counter < 100000 ==>
      var t := AfterPoll(s).value;
      |t.pending| < |s.pending| || (t.pending == s.pending && t.counter == s.counter + 1 < 100000)
  {
  }

  /** n polls in a row. */
  function Polled(s: Ready, n: nat): Option<Ready>
    decreases n
  {
    if n == 0 then Some(s)
    else match AfterPoll(s) case None => None case Some(t) => Polled(t, n - 1)
  }

  /** After the controller was asked, 99999 polls ask it nothing, and the next takes one answer. */
  lemma AskedInTurn(s: Ready, n: nat)
    requires s.counter == 0
    ensures n < 100000 ==> Polled(s, n) == Some(s.(counter := n))
    ensures s.pending == [] ==> Polled(s, 100000) == None
    ensures s.pending != [] ==> Polled(s, 100000) == Some(Ready(Heard(s.queue, s.pending[0]), 0, s.pending[1..]))
  {
    if n < 100000 { PollsCount(s, n, 0); }
    PollsCount(s, 99999, 1);
    assert s.(counter := 0) == s;
  }

  lemma {:induction false} PollsCount(s: Ready, n: nat, more: nat)
    requires s.counter + n < 100000
    ensures Polled(s, n + more) == Polled(s.(counter := s.counter + n), more)
    decreases n
  {
    if n > 0 { PollsCount(s.(counter := s.counter + 1), n - 1, more); }
  }

  class Driver {
    var buffer: array<Byte>
    var head: nat
    var tail: nat
    var pollCounter: nat
    /** What the controller will answer to the polls to come: a scancode, or that it has none. */
    var pending: seq<Option<Byte>>
    ghost var history: seq<Event>

    /** The ring holds what the events so far leave waiting. */
    ghost predicate Valid()
      reads this, buffer
    {
      && buffer.Length == 256 && head < 256 && tail < 256 && pollCounter < 100000
      && Ring(buffer[..], tail, head) == Run(history).queue
    }

    ghost function Taken(): seq<Byte>
      reads this
    {
      Run(history).taken
    }

    /** The keys pressed so far, then those still to come: polling loses and adds none. */
    ghost function Pressed(): seq<Byte>
      reads this
    {
      Keys(history) + Answers(pending)
    }

    ghost function Now(): Ready
      reads this
    {
      Ready(Run(history).queue, pollCounter, pending)
    }

    constructor (answers: seq<Option<Byte>>)
      ensures Valid() && fresh(buffer) && history == [] && pending == answers
    {
      buffer := new Byte[256];
      head, tail, pollCounter := 0, 0, 0;
      pending := answers;
      history := [];
    }

    /** A key event stores its character, or drops it exactly when 255 are waiting. */
    method Handler(scancode: Byte)
      requires Valid()
      modifies this, buffer
      ensures Valid() && buffer == old(buffer) && history == old(history) + [Key(scancode)]
      ensures pending == old(pending) && pollCounter == old(pollCounter) && tail == old(tail)
      ensures Taken() == old(Taken())
      ensures Run(history).queue == Heard(Run(old(history)).queue, Some(scancode))
      ensures |Run(history).queue| <= |Run(old(history)).queue| + 1
    {
      hide Ring, Run, KEYMAP;
      RunMore(history, Key(scancode));
      RingFull(buffer[..], tail, head);
      history := history + [Key(scancode)];
      if scancode < 128 {
        KeymapSize();
        var c := KEYMAP[scancode];
        if c != 0 {
          var next := (head + 1) % 256;
          if next != tail {
            RingPush(buffer[..], tail, head, c);
            buffer[head] := c;
            head := next;
          }
        }
      }
    }

    /** Every 100000th poll asks the controller. more is false if its answer is not known. */
    method Poll() returns (more: bool)
      requires Valid()
      modifies this, buffer
      ensures Valid() && buffer == old(buffer) && old(history) <= history
      ensures AfterPoll(old(Now())) == if more then Some(Now()) else None
      ensures !more ==> Now() == old(Now())
      ensures Pressed() == old(Pressed()) && Taken() == old(Taken())
      ensures |Run(history).queue| + |pending| <= |Run(old(history)).queue| + |old(pending)|
    {
      hide Ring, Run, Keys, Answers;
      if pollCounter + 1 >= 100000 && pending == [] {
        return false;
      }
      pollCounter := pollCounter + 1;
      if pollCounter >= 100000 {
        pollCounter := 0;
        var answer := pending[0];
        AnswerMoves(history, pending);
        pending := pending[1..];
        if answer.Some? {
          Handler(answer.value);
        }
      }
      return true;
    }

    /** The next character waiting; None if there is none and no more answers are known. */
    method GetChar() returns (c: Option<Byte>)
      requires Valid()
      modifies this, buffer
      ensures Valid() && buffer == old(buffer) && old(history) <= history
      ensures Pressed() == old(Pressed())
      ensures match Await(old(Now()))
        case None => c == None
        case Some(t) => c == Some(t.queue[0]) && Now() == t.(queue := t.queue[1..])
      ensures c.None? ==> pending == [] && Run(history).queue == [] && Taken() == old(Taken())
      ensures c.Some? ==> Taken() == old(Taken()) + [c.value]
      ensures c.Some? ==> |Run(history).queue| + |pending| < |Run(old(history)).queue| + |old(pending)|
    {
      hide Ring, Run, Keys, Answers, Await, AfterPoll;
      AwaitStep(Now());
      RingFull(buffer[..], tail, head);
      var more := Poll();
      AnswerNeeded(old(Now()));
      RingFull(buffer[..], tail, head);
      while more && head == tail
        invariant Valid() && buffer == old(buffer) && old(history) <= history
        invariant Pressed() == old(Pressed()) && Taken() == old(Taken())
        invariant !more ==> pending == []
        invariant Await(old(Now())) ==
          if Run(history).queue != [] then Some(Now()) else if more then Await(Now()) else None
        invariant |Run(history).queue| + |pending| <= |Run(old(history)).queue| + |old(pending)|
        decreases more, |pending|, 100000 - pollCounter
      {
        ghost var s := Now();
        AwaitStep(s);
        AnswerNeeded(s);
        more := Poll();
        RingFull(buffer[..], tail, head);
      }
      if head == tail {
        return None;
      }
      RingPop(buffer[..], tail, head);
      RunMore(history, Take);
      KeysMore(history, Take);
      c := Some(buffer[tail]);
      tail := (tail + 1) % 256;
      history := history + [Take];
    }

    /** sys_read on fd 0 fills buf with the edited line of exactly the characters it consumed, and
        echoes them on the screen. */
    method SysRead(fd: int, buf: array<Byte>, len: nat, screen: Vga.Screen, ghost paper: seq<nat>)
      returns (n: Option<nat>)
      requires Valid() && buf != buffer && len <= buf.Length && screen.Shows(paper)
      requires screen.cells as object != buf as object && screen.cells as object != buffer as object
      modifies this, buffer, buf, screen, screen.cells
      ensures Valid() && buffer == old(buffer) && old(history) <= history && Pressed() == old(Pressed())
      ensures old(Taken()) <= Taken()
      ensures fd != 0 ==> n == Some(0) && history == old(history) && buf[..] == old(buf[..]) && screen.Shows(paper)
      ensures fd == 0 ==>
        var consumed := Taken()[|old(Taken())|..];
        && screen.Shows(Vga.TypeAll(paper, Echo([], consumed, len)))
        && match n
           case Some(k) => k <= len && EditLine([], consumed, len) == Entered(buf[..k], [])
           case None => EditLine([], consumed, len).Typing? && Run(history).queue == [] && pending == []
      ensures fd == 0 && n.Some? && !Deletes([], Taken()[|old(Taken())|..], len) ==>
        screen.Shows(Vga.TypeAll(paper, buf[..n.value]))
      ensures buf[len..] == old(buf[len..])
    {
      hide Deletes, Valid, Pressed, Vga.Screen.Shows, Ring, Run, Keys, Answers, EditLine, Echo, EchoOne, Vga.TypeAll,
           Vga.Window, Vga.Cursor, Vga.CString;
      if fd != 0 {
        return Some(0);
      }
      ghost var consumed: seq<Byte> := [];
      var written := 0;
      EditStart(len, paper);
      while written < len
        invariant Valid() && buffer == old(buffer) && old(history) <= history && Pressed() == old(Pressed())
        invariant 0 <= written <= len && Taken() == old(Taken()) + consumed
        invariant EditLine([], consumed, len) ==
          if written < len then Typing(buf[..written]) else Entered(buf[..written], [])
        invariant screen.Shows(Vga.TypeAll(paper, Echo([], consumed, len)))
        invariant forall i :: len <= i < buf.Length ==> buf[i] == old(buf[i])
        decreases |Run(history).queue| + |pending|
      {
        var next := GetChar();
        if next.None? {
          TailOf(old(Taken()), consumed);
          return None;
        }
        var c := next.value;
        ghost var line, shown := buf[..written], Vga.TypeAll(paper, Echo([], consumed, len));
        EditNext(consumed, line, c, len);
        EchoNext(consumed, line, c, len);
        Vga.TypeMore(paper, Echo([], consumed, len), EchoOne(line, c));
        assert Taken() == old(Taken()) + (consumed + [c]);
        consumed := consumed + [c];
        var ended;
        written, ended := Accept(c, buf, written, screen, shown);
        if ended {
          assert EditLine([], consumed, len) == Entered(line + [NEWLINE], []) && buf[..written] == line + [NEWLINE];
          TailOf(old(Taken()), consumed);
          ShownLine(paper, history, old(Taken()), consumed, len, buf[..written]);
          return Some(written);
        }
      }
      TailOf(old(Taken()), consumed);
      ShownLine(paper, history, old(Taken()), consumed, len, buf[..written]);
      return Some(written);
    }

    /** What sys_read does with one character. */
    method Accept(c: Byte, buf: array<Byte>, written: nat, screen: Vga.Screen, ghost shown: seq<nat>)
      returns (next: nat, ended: bool)
      requires written < buf.Length && screen.Shows(shown) && screen.cells as object != buf as object
      modifies buf, screen, screen.cells
      ensures screen.Shows(Vga.TypeAll(shown, EchoOne(old(buf[..written]), c)))
      ensures ended == (c == NEWLINE || c == RETURN)
      ensures next <= written + 1
      ensures buf[..next] ==
        if c == BACKSPACE then Shorter(old(buf[..written]))
        else old(buf[..written]) + [if ended then NEWLINE else c]
      ensures forall i :: written < i < buf.Length ==> buf[i] == old(buf[i])
    {
      hide Vga.TypeAll, EchoOne, Vga.Screen.Shows;
      PrintEcho(c, written, screen, buf[..written], shown);
      if c == BACKSPACE {
        return if written > 0 then written - 1 else 0, false;
      }
      if c == NEWLINE || c == RETURN {
        buf[written] := NEWLINE;
        return written + 1, true;
      }
      buf[written] := c;
      return written + 1, false;
    }

    /** The kprintf calls of sys_read. */
    method PrintEcho(c: Byte, written: nat, screen: Vga.Screen, ghost line: seq<Byte>, ghost shown: seq<nat>)
      requires screen.Shows(shown) && |line| == written
      modifies screen, screen.cells
      ensures screen.Shows(Vga.TypeAll(shown, EchoOne(line, c)))
    {
      EchoStrings(shown);
      if c == BACKSPACE {
        if written > 0 {
          screen.TtyWrite(ERASE + [0], shown);
        }
      } else if c == NEWLINE || c == RETURN {
        screen.TtyWrite([NEWLINE, 0], shown);
      } else {
        screen.TtyWrite([c, 0], shown);
      }
    }
  }

  lemma TailOf(a: seq<Byte>, b: seq<Byte>)
    ensures (a + b)[|a|..] == b
  {
  }

  /** Nothing taken from the ring is zero; so the echo of an undeleted line is the line. */
  lemma ShownLine(paper: seq<nat>, events: seq<Event>, taken: seq<Byte>, chars: seq<Byte>, len: nat, text: seq<Byte>)
    requires Run(events).taken == taken + chars && EditLine([], chars, len) == Entered(text, [])
    ensures !Deletes([], chars, len) ==>
      Vga.TypeAll(paper, Echo([], chars, len)) == Vga.TypeAll(paper, text)
  {
    RingIsFifo(events);
    assert forall c :: c in chars ==> c in (taken + chars) + Run(events).queue;
    EchoShowsLine(paper, chars, len);
  }

  lemma EchoStrings(shown: seq<nat>)
    ensures Vga.CString(ERASE + [0]) == ERASE && Vga.CString([NEWLINE, 0]) == [NEWLINE]
    ensures Vga.TypeAll(shown, []) == shown
  {
    assert ERASE + [0] == [BACKSPACE, 32, BACKSPACE, 0];
    assert Vga.CString([BACKSPACE, 0]) == [BACKSPACE];
    assert [32, BACKSPACE, 0][1..] == [BACKSPACE, 0] && [BACKSPACE, 32, BACKSPACE, 0][1..] == [32, BACKSPACE, 0];
    assert [BACKSPACE, 0][1..] == [0] && [NEWLINE, 0][1..] == [0];
  }

  lemma EditStart(len: nat, paper: seq<nat>)
    ensures EditLine([], [], len) == if 0 < len then Typing([]) else Entered([], [])
    ensures Vga.TypeAll(paper, Echo([], [], len)) == paper
  {
  }

  lemma RunMore(events: seq<Event>, e: Event)
    ensures Run(events + [e]) == Run(events).After(e)
  {
    assert (events + [e])[..|events|] == events;
  }

  lemma KeysMore(events: seq<Event>, e: Event)
    ensures Keys(events + [e]) == Keys(events) + if e.Key? then [e.scancode] else []
  {
    assert (events + [e])[..|events|] == events;
  }

  lemma AnswerMoves(events: seq<Event>, pending: seq<Option<Byte>>)
    requires pending != []
    ensures var heard := if pending[0].Some? then events + [Key(pending[0].value)] else events;
      Keys(heard) + Answers(pending[1..]) == Keys(events) + Answers(pending)
  {
    if pending[0].Some? { KeysMore(events, Key(pending[0].value)); }
  }
}
