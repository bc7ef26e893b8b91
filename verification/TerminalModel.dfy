/** The text console of kernel/arch/i386/tty.c on values: an unbounded log of scrolled-off lines, the
    25 x 80 screen below it, and the distance the view has been scrolled back. */
module TerminalModel {
  import opened Basics

  const WIDTH := 80
  const HEIGHT := 25
  const SCROLLBACK_LINES := 256

  type Cell = c: nat | c < 0x1_0000
  type Line = l: seq<Cell> | |l| == WIDTH witness seq(WIDTH, _ => 0)

  const BACKSPACE: Byte := 8
  const NEWLINE: Byte := 10
  const RETURN: Byte := 13
  const SPACE: Byte := 32

  /** A VGA text cell: character in the low byte, attribute in the high byte. */
  function Entry(c: Byte, color: Byte): Cell {
    c + color * 0x100
  }

  function BlankLine(color: Byte): Line {
    seq(WIDTH, _ => Entry(SPACE, color))
  }

  function BlankScreen(color: Byte): (r: seq<Cell>)
    ensures |r| == WIDTH * HEIGHT
  {
    seq(WIDTH * HEIGHT, _ => Entry(SPACE, color))
  }

  /** Row `y` of a flat 25 x 80 cell buffer. */
  function Row(cells: seq<Cell>, y: nat): Line
    requires |cells| == WIDTH * HEIGHT && y < HEIGHT
  {
    cells[y * WIDTH..(y + 1) * WIDTH]
  }

  datatype Terminal = Terminal(log: seq<Line>, screen: seq<Cell>, offset: nat, row: nat, col: nat, color: Byte)

  /** The lines of the log that the ring still holds. */
  function Held(log: seq<Line>): nat {
    if |log| < SCROLLBACK_LINES then |log| else SCROLLBACK_LINES
  }

  /** The cursor is on the screen and the view is not scrolled past the retained lines. */
  predicate InBounds(t: Terminal) {
    && |t.screen| == WIDTH * HEIGHT
    && t.row < HEIGHT && t.col < WIDTH
    && t.offset <= Held(t.log)
  }

  /** What row `y` of the display must show: line |H| - offset + y of H followed by the screen, where
      H is the retained tail of the log. */
  function WindowLine(t: Terminal, y: nat): Line
    requires InBounds(t) && y < HEIGHT
  {
    if y < t.offset then t.log[|t.log| - t.offset + y] else Row(t.screen, y - t.offset)
  }

  function Reset(color: Byte): (t: Terminal)
    ensures InBounds(t)
  {
    Terminal([], BlankScreen(color), 0, 0, 0, color)
  }

  function PutEntry(t: Terminal, c: Byte, color: Byte, x: nat, y: nat): (r: Terminal)
    requires InBounds(t) && x < WIDTH && y < HEIGHT
    ensures InBounds(r)
  {
    t.(screen := t.screen[y * WIDTH + x := Entry(c, color)])
  }

  function ScrollLine(t: Terminal): (r: Terminal)
    requires |t.screen| == WIDTH * HEIGHT && t.offset <= Held(t.log)
    ensures InBounds(r)
  {
    var log := t.log + [Row(t.screen, 0)];
    Terminal(log, t.screen[WIDTH..] + BlankLine(t.color),
             if t.offset < Held(log) then t.offset + 1 else t.offset,
             HEIGHT - 1, 0, t.color)
  }

  function ScrollToBottom(t: Terminal): Terminal {
    t.(offset := 0)
  }

  function LineFeed(t: Terminal): (r: Terminal)
    requires InBounds(t)
    ensures InBounds(r)
  {
    if t.row + 1 == HEIGHT then ScrollLine(t) else t.(row := t.row + 1, col := 0)
  }

  function PutChar(t: Terminal, c: Byte): (r: Terminal)
    requires InBounds(t)
    ensures InBounds(r)
  {
    var s := ScrollToBottom(t);
    if c == BACKSPACE then
      if s.col > 0 then PutEntry(s.(col := s.col - 1), SPACE, s.color, s.col - 1, s.row)
      else if s.row > 0 then PutEntry(s.(row := s.row - 1, col := WIDTH - 1), SPACE, s.color, WIDTH - 1, s.row - 1)
      else s
    else if c == RETURN then s.(col := 0)
    else if c == NEWLINE then LineFeed(s)
    else
      var u := PutEntry(s, c, s.color, s.col, s.row);
      if u.col + 1 == WIDTH then LineFeed(u) else u.(col := u.col + 1)
  }

  function ScrollView(t: Terminal, delta: int): (r: Terminal)
    requires InBounds(t)
    ensures InBounds(r)
  {
    if delta > 0 then t.(offset := if t.offset + delta > Held(t.log) then Held(t.log) else t.offset + delta)
    else if delta < 0 then t.(offset := if t.offset <= -delta then 0 else t.offset + delta)
    else t
  }
}
