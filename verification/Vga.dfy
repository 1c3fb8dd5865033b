/** The text screen: 25 rows of 80 cells with a cursor (kernel/core/vga.c). */
module Vga {
  import opened Bits
  import opened Bytes

  /** A character with its colour byte, 0x0F. */
  function Cell(c: Byte): nat { 0x0F00 + c }

  const BLANK: nat := 0x0F20

  // ---------- the unbounded paper the screen is a window on ----------

  function Blanks(n: nat): (b: seq<nat>)
    ensures |b| == n && forall i :: 0 <= i < n ==> b[i] == BLANK
  {
    seq(n, _ => BLANK)
  }

  function CellsOf(text: seq<Byte>): (b: seq<nat>)
    ensures |b| == |text| && forall i :: 0 <= i < |b| ==> b[i] == Cell(text[i])
  {
    seq(|text|, i requires 0 <= i < |text| => Cell(text[i]))
  }

  /** A character takes the next cell; a newline leaves the rest of the row blank. */
  function Type(paper: seq<nat>, c: Byte): seq<nat> {
    if c == 10 then paper + Blanks(80 - |paper| % 80) else paper + [Cell(c)]
  }

  function TypeAll(paper: seq<nat>, text: seq<Byte>): seq<nat>
    decreases text
  {
    if text == [] then paper else TypeAll(Type(paper, text[0]), text[1..])
  }

  lemma {:induction false} TypeMore(paper: seq<nat>, a: seq<Byte>, b: seq<Byte>)
    ensures TypeAll(paper, a + b) == TypeAll(TypeAll(paper, a), b)
    decreases a
  {
    if a == [] {
      assert [] + b == b;
    } else {
      assert (a + b)[0] == a[0] && (a + b)[1..] == a[1..] + b;
      TypeMore(Type(paper, a[0]), a[1..], b);
    }
  }

  lemma {:induction false} TypeLine(paper: seq<nat>, line: seq<Byte>)
    requires 10 !in line
    ensures TypeAll(paper, line) == paper + CellsOf(line)
    decreases line
  {
    if line != [] {
      assert line[0] in line;
      TypeLine(Type(paper, line[0]), line[1..]);
      assert paper + [Cell(line[0])] + CellsOf(line[1..]) == paper + CellsOf(line);
    }
  }

  // ---------- the same paper, described by lines ----------

  /** The text without its first line and that line's newline, if it has one. */
  function FirstLine(text: seq<Byte>): (n: nat)
    ensures n <= |text| && 10 !in text[..n] && (n < |text| ==> text[n] == 10)
  {
    if text == [] || text[0] == 10 then 0
    else
      var n := 1 + FirstLine(text[1..]);
      assert text[..n] == [text[0]] + text[1..][..n - 1];
      n
  }

  /** Every line starts a row of its own and fills as many rows as it needs, at least one. */
  function Wrapped(text: seq<Byte>): seq<nat>
    decreases |text|
  {
    var n := FirstLine(text);
    if n == |text| then CellsOf(text)
    else CellsOf(text[..n]) + Blanks((n / 80 + 1) * 80 - n) + Wrapped(text[n + 1..])
  }

  /** The same layout in characters. */
  function Glyphs(text: seq<Byte>): seq<Byte>
    decreases |text|
  {
    var n := FirstLine(text);
    if n == |text| then text
    else text[..n] + seq((n / 80 + 1) * 80 - n, _ => 32) + Glyphs(text[n + 1..])
  }

  /** Every cell of the layout is white on black, 0x0F, with the character that stands there. */
  lemma {:induction false} WrappedCells(text: seq<Byte>)
    ensures |Wrapped(text)| == |Glyphs(text)|
    ensures forall k :: 0 <= k < |Glyphs(text)| ==>
      Wrapped(text)[k] / 0x100 == 0x0F && Wrapped(text)[k] % 0x100 == Glyphs(text)[k]
    decreases |text|
  {
    var n := FirstLine(text);
    if n < |text| { WrappedCells(text[n + 1..]); }
  }

  /** Typing text from the start of a row lays out its lines one below the other. */
  lemma {:induction false} TypedIsWrapped(paper: seq<nat>, text: seq<Byte>)
    requires |paper| % 80 == 0
    ensures TypeAll(paper, text) == paper + Wrapped(text)
    decreases |text|
  {
    hide Type, TypeAll, FirstLine;
    var n := FirstLine(text);
    if n == |text| {
      assert text[..n] == text;
      TypeLine(paper, text);
    } else {
      var line, tail, rest := text[..n], text[n..], text[n + 1..];
      var p, pad := paper + CellsOf(line), (n / 80 + 1) * 80 - n;
      assert text == line + tail && tail[0] == 10 && tail[1..] == rest;
      TypeMore(paper, line, tail);
      TypeLine(paper, line);
      Newline(p, n, |paper| / 80, pad);
      TypeStep(p, tail);
      TypedIsWrapped(p + Blanks(pad), rest);
      assert p + Blanks(pad) + Wrapped(rest) == paper + Wrapped(text);
    }
  }

  lemma TypeStep(paper: seq<nat>, text: seq<Byte>)
    requires text != []
    ensures TypeAll(paper, text) == TypeAll(Type(paper, text[0]), text[1..])
  {
  }

  lemma Newline(p: seq<nat>, n: nat, k: nat, pad: nat)
    requires |p| == 80 * k + n && pad == (n / 80 + 1) * 80 - n
    ensures Type(p, 10) == p + Blanks(pad) && (|p| + pad) % 80 == 0
  {
    assert |p| % 80 == n % 80;
  }

  // ---------- the window ----------

  /** The first row shown when so many cells are used: the last row used is never below row 24. */
  function Top(used: nat): nat {
    if used < 1920 then 0 else used / 80 - 24
  }

  function CellAt(paper: seq<nat>, k: nat): nat {
    if k < |paper| then paper[k] else BLANK
  }

  function Window(paper: seq<nat>): (w: seq<nat>)
    ensures |w| == 2000 && forall i :: 0 <= i < 2000 ==> w[i] == CellAt(paper, 80 * Top(|paper|) + i)
  {
    seq<nat>(2000, i requires 0 <= i < 2000 => CellAt(paper, 80 * Top(|paper|) + i))
  }

  function Cursor(paper: seq<nat>): (c: nat)
    ensures c < 2000
  {
    |paper| - 80 * Top(|paper|)
  }

  /** The screen scrolls only when a cell more would leave it. */
  lemma TopIsLeast(n: nat)
    ensures 80 * Top(n) <= n < 80 * Top(n) + 2000
    ensures Top(n) > 0 ==> n >= 80 * (Top(n) - 1) + 2000
  {
  }

  /** The character on a cell of the window: the one laid out there, or a space. */
  function Shown(glyphs: seq<Byte>, i: nat): nat {
    var k := 80 * Top(|glyphs|) + i;
    if k < |glyphs| then glyphs[k] else 32
  }

  lemma WindowShows(text: seq<Byte>)
    ensures forall i :: 0 <= i < 2000 ==>
      Window(Wrapped(text))[i] / 0x100 == 0x0F && Window(Wrapped(text))[i] % 0x100 == Shown(Glyphs(text), i)
  {
    hide Top, Wrapped, Glyphs;
    WrappedCells(text);
  }

  /** Every cell of the window from the cursor on is blank. */
  lemma BlankFromCursor(paper: seq<nat>, k: nat)
    requires Cursor(paper) <= k < 2000
    ensures Window(paper)[k] == BLANK
  {
  }

  /** Every character typed is on the screen at its row and column unless its row has left at the top. */
  lemma CharacterShown(paper: seq<nat>, k: nat)
    requires 80 * Top(|paper|) <= k < |paper|
    ensures k - 80 * Top(|paper|) < Cursor(paper) && Window(paper)[k - 80 * Top(|paper|)] == paper[k]
  {
  }

  lemma WindowMoves(p: seq<nat>, q: seq<nat>)
    requires |p| <= |q| && Top(|q|) == Top(|p|) + 1
    requires forall i :: 0 <= i < |p| ==> p[i] == q[i]
    requires forall i :: |p| <= i < |q| ==> q[i] == BLANK
    ensures Window(q) == Window(p)[80..] + Blanks(80)
  {
    hide Top;
    assert |q| - 80 * Top(|q|) == Cursor(q);
    var x := Window(p)[80..] + Blanks(80);
    assert |x| == 2000;
    forall i | 0 <= i < 2000
      ensures Window(q)[i] == x[i]
    {
      CellMoves(p, q, i);
    }
  }

  lemma CellMoves(p: seq<nat>, q: seq<nat>, i: nat)
    requires |p| <= |q| && Top(|q|) == Top(|p|) + 1 && i < 2000
    requires forall i :: 0 <= i < |p| ==> p[i] == q[i]
    requires forall i :: |p| <= i < |q| ==> q[i] == BLANK
    ensures Window(q)[i] == if i < 1920 then Window(p)[80 + i] else BLANK
  {
    assert |p| < 80 * Top(|p|) + 2000;
  }

  lemma WindowStays(p: seq<nat>, q: seq<nat>)
    requires |p| <= |q| && Top(|q|) == Top(|p|)
    requires forall i :: 0 <= i < |p| ==> p[i] == q[i]
    requires forall i :: |p| <= i < |q| ==> q[i] == BLANK
    ensures Window(q) == Window(p)
  {
  }

  lemma WindowWrites(paper: seq<nat>, x: nat)
    ensures var full := Cursor(paper) == 1999;
      var w := Window(paper)[Cursor(paper) := x];
      && Window(paper + [x]) == (if full then w[80..] + Blanks(80) else w)
      && Cursor(paper + [x]) == if full then 1920 else Cursor(paper) + 1
  {
    hide Window;
    TopAfterOne(|paper|);
    var c, q := Cursor(paper), paper + [x];
    forall i | 0 <= i < 2000
      ensures Window(q)[i] ==
        if c == 1999 then if i < 1920 then Window(paper)[c := x][80 + i] else BLANK
        else Window(paper)[c := x][i]
    {
      WindowAt(paper, i);
      WindowAt(q, i);
      if i < 1920 { WindowAt(paper, 80 + i); }
    }
  }

  lemma WindowAt(paper: seq<nat>, i: nat)
    requires i < 2000
    ensures Window(paper)[i] == CellAt(paper, 80 * Top(|paper|) + i)
  {
  }

  lemma TopAfterOne(n: nat)
    ensures Top(n + 1) == if n - 80 * Top(n) == 1999 then Top(n) + 1 else Top(n)
  {
  }

  lemma WindowBreaks(paper: seq<nat>)
    ensures var row := Cursor(paper) / 80;
      var q := Type(paper, 10);
      && Window(q) == (if row >= 24 then Window(paper)[80..] + Blanks(80) else Window(paper))
      && Cursor(q) == if row >= 24 then 1920 else (row + 1) * 80
  {
    hide Window;
    var q := Type(paper, 10);
    TopAfterRow(|paper|);
    if Cursor(paper) / 80 >= 24 { WindowMoves(paper, q); } else { WindowStays(paper, q); }
  }

  lemma TopAfterRow(n: nat)
    ensures var m := n + (80 - n % 80);
      var row := (n - 80 * Top(n)) / 80;
      && Top(m) == (if row >= 24 then Top(n) + 1 else Top(n))
      && m - 80 * Top(m) == if row >= 24 then 1920 else (row + 1) * 80
  {
  }

  // ---------- the screen ----------

  /** The characters of a C string: those before its NUL. */
  function CString(s: seq<Byte>): seq<Byte> {
    if s == [] || s[0] == 0 then [] else [s[0]] + CString(s[1..])
  }

  function Texts(strings: seq<seq<Byte>>): seq<Byte> {
    if strings == [] then []
    else Texts(strings[..|strings| - 1]) + CString(strings[|strings| - 1])
  }

  /** What the serial line gets of a text: a carriage return before each newline. */
  function SerialText(text: seq<Byte>): seq<Byte> {
    if text == [] then []
    else (if text[0] == 10 then [13, 10] else [text[0]]) + SerialText(text[1..])
  }

  lemma {:induction false} SerialMore(a: seq<Byte>, b: seq<Byte>)
    ensures SerialText(a + b) == SerialText(a) + SerialText(b)
  {
    if a == [] {
      assert [] + b == b;
    } else {
      assert (a + b)[0] == a[0] && (a + b)[1..] == a[1..] + b;
      SerialMore(a[1..], b);
    }
  }

  /** A newline goes out as carriage return and newline, any other character as itself. */
  lemma SerialOf(c: Byte)
    ensures SerialText(Ascii("\n")) == Ascii("\r\n")
    ensures c != 10 ==> SerialText([c]) == [c]
  {
    assert Ascii("\n") == [10] && Ascii("\r\n") == [13, 10];
    assert [10][1..] == [] && [c][1..] == [];
  }

  /** Of a text and its NUL the text is taken, whatever follows. */
  lemma {:induction false} CStringIs(text: seq<Byte>, rest: seq<Byte>)
    requires 0 !in text
    ensures CString(text + [0] + rest) == text
  {
    if text != [] {
      CStringIs(text[1..], rest);
      assert (text + [0] + rest)[1..] == text[1..] + [0] + rest;
    }
  }

  class Screen {
    const cells: array<nat>
    var cursor: nat
    /** Everything sent over the serial line so far. */
    var serial: seq<Byte>

    constructor (memory: array<nat>)
      ensures cells == memory && cursor == 0 && serial == []
    {
      cells := memory;
      cursor, serial := 0, [];
    }

    /** The screen shows the window of the paper, and the cursor stands where the paper ends. */
    ghost predicate Shows(paper: seq<nat>)
      reads this, cells
    {
      cells.Length == 2000 && cells[..] == Window(paper) && cursor == Cursor(paper)
    }

    method Scroll()
      requires cells.Length == 2000
      modifies cells, this
      ensures cells[..] == old(cells[80..2000]) + Blanks(80) && cursor == 1920 && serial == old(serial)
    {
      var i := 0;
      while i < 1920
        invariant 0 <= i <= 1920 && cursor == old(cursor) && serial == old(serial)
        invariant forall k :: 0 <= k < i ==> cells[k] == old(cells[k + 80])
        invariant forall k :: i <= k < 2000 ==> cells[k] == old(cells[k])
      {
        cells[i] := cells[i + 80];
        i := i + 1;
      }
      while i < 2000
        invariant 1920 <= i <= 2000 && cursor == old(cursor) && serial == old(serial)
        invariant forall k :: 0 <= k < 1920 ==> cells[k] == old(cells[k + 80])
        invariant forall k :: 1920 <= k < i ==> cells[k] == BLANK
      {
        cells[i] := BLANK;
        i := i + 1;
      }
      cursor := 1920;
    }

    method Kcls()
      requires cells.Length == 2000
      modifies cells, this
      ensures Shows([]) && serial == old(serial)
    {
      var i := 0;
      while i < 2000
        invariant 0 <= i <= 2000 && serial == old(serial)
        invariant forall k :: 0 <= k < i ==> cells[k] == BLANK
      {
        cells[i] := BLANK;
        i := i + 1;
      }
      cursor := 0;
    }

    method WriteChar(c: Byte, ghost paper: seq<nat>)
      requires Shows(paper)
      modifies cells, this
      ensures Shows(Type(paper, c)) && serial == old(serial)
    {
      hide Window, Blanks, Cursor;
      if c == 10 {
        WindowBreaks(paper);
        var row := cursor / 80;
        if row >= 24 {
          Scroll();
        } else {
          cursor := (row + 1) * 80;
        }
      } else {
        WindowWrites(paper, Cell(c));
        cells[cursor] := Cell(c);
        cursor := cursor + 1;
        if cursor >= 2000 {
          Scroll();
        }
      }
    }

    /** serial_printf. */
    method SerialPrintf(str: seq<Byte>)
      requires 0 in str
      modifies this`serial
      ensures serial == old(serial) + SerialText(CString(str))
    {
      hide CString, SerialText;
      var i := 0;
      StringOf(str);
      while str[i] != 0
        invariant 0 <= i < |str| && 0 in str[i..]
        invariant serial + SerialText(CString(str[i..])) == old(serial) + SerialText(CString(str))
        decreases |str| - i
      {
        SerialStep(str, i);
        if str[i] == 10 {
          serial := serial + [13];
        }
        serial := serial + [str[i]];
        i := i + 1;
      }
      StringEnds(str, i);
    }

    /** After any string the screen shows the window of the paper with the string typed on, and the
        serial line has got the string. */
    method TtyWrite(str: seq<Byte>, ghost paper: seq<nat>)
      requires Shows(paper) && 0 in str
      modifies cells, this
      ensures Shows(TypeAll(paper, CString(str)))
      ensures serial == old(serial) + SerialText(CString(str))
    {
      hide Window, Cursor, Type, SerialText;
      SerialPrintf(str);
      ghost var sent := serial;
      var i := 0;
      ghost var typed := paper;
      while str[i] != 0
        invariant 0 <= i < |str| && 0 in str[i..] && Shows(typed) && serial == sent
        invariant TypeAll(typed, CString(str[i..])) == TypeAll(paper, CString(str))
        decreases |str| - i
      {
        StringStep(str, i, typed);
        WriteChar(str[i], typed);
        typed := Type(typed, str[i]);
        i := i + 1;
      }
    }

    /** Whatever was on it before, a cleared screen shows all that was written since: the last
        25 rows of the lines wrapped at 80 columns. */
    method WriteAll(strings: seq<seq<Byte>>)
      requires cells.Length == 2000 && forall s :: s in strings ==> 0 in s
      modifies cells, this
      ensures Shows(Wrapped(Texts(strings))) && serial == old(serial) + SerialText(Texts(strings))
      ensures forall i :: 0 <= i < 2000 ==>
        cells[i] / 0x100 == 0x0F && cells[i] % 0x100 == Shown(Glyphs(Texts(strings)), i)
    {
      hide Window, Cursor, Wrapped, Glyphs, Shown, CString, TypeAll, SerialText;
      Kcls();
      TypeNothing();
      var i := 0;
      while i < |strings|
        invariant 0 <= i <= |strings| && Shows(TypeAll([], Texts(strings[..i])))
        invariant serial == old(serial) + SerialText(Texts(strings[..i]))
      {
        ghost var before := Texts(strings[..i]);
        TtyWrite(strings[i], TypeAll([], before));
        TypeMore([], before, CString(strings[i]));
        SerialMore(before, CString(strings[i]));
        assert strings[..i + 1][..i] == strings[..i];
        i := i + 1;
      }
      assert strings[..i] == strings;
      TypedIsWrapped([], Texts(strings));
      WindowShows(Texts(strings));
      assert [] + Wrapped(Texts(strings)) == Wrapped(Texts(strings));
    }
  }

  lemma TypeNothing()
    ensures TypeAll([], []) == [] && SerialText([]) == []
  {
  }

  lemma StringOf(str: seq<Byte>)
    ensures str[0..] == str
  {
  }

  lemma SerialStep(str: seq<Byte>, i: nat)
    requires i < |str| && 0 in str[i..] && str[i] != 0
    ensures i + 1 < |str| && 0 in str[i + 1..]
    ensures SerialText(CString(str[i..])) ==
      (if str[i] == 10 then [13, 10] else [str[i]]) + SerialText(CString(str[i + 1..]))
  {
    assert str[i..] == [str[i]] + str[i + 1..];
    var text := CString(str[i..]);
    assert text[0] == str[i] && text[1..] == CString(str[i + 1..]);
  }

  lemma StringEnds(str: seq<Byte>, i: nat)
    requires i < |str| && str[i] == 0
    ensures CString(str[i..]) == [] && SerialText(CString(str[i..])) == []
  {
  }

  lemma StringStep(str: seq<Byte>, i: nat, paper: seq<nat>)
    requires i < |str| && 0 in str[i..] && str[i] != 0
    ensures i + 1 < |str| && 0 in str[i + 1..]
    ensures TypeAll(paper, CString(str[i..])) == TypeAll(Type(paper, str[i]), CString(str[i + 1..]))
  {
    assert str[i..] == [str[i]] + str[i + 1..];
    var text := CString(str[i..]);
    assert text[0] == str[i] && text[1..] == CString(str[i + 1..]);
  }
}
