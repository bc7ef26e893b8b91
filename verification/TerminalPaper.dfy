/** The console as a roll of paper: one growing strip of cells with a write position. The log, the
    screen and its block moves refine this strip, whatever is written. */
module TerminalPaper {
  import opened Basics
  import opened TerminalModel

  /** All lines since the last clear, oldest first, as one strip; the last 25 rows are the screen. */
  datatype Paper = Paper(cells: seq<Cell>, pos: nat, color: Byte)

  ghost predicate Wide(p: Paper) {
    |p.cells| >= WIDTH * HEIGHT && |p.cells| % WIDTH == 0 && Top(p) <= p.pos < |p.cells|
  }

  /** Where the screen begins; the write position cannot be moved back above it. */
  function Top(p: Paper): int {
    |p.cells| - WIDTH * HEIGHT
  }

  /** Moving the position to the end of the strip feeds one blank line. */
  function Advance(p: Paper, pos: nat): Paper {
    if pos == |p.cells| then p.(cells := p.cells + BlankLine(p.color), pos := pos) else p.(pos := pos)
  }

  function Type(p: Paper, c: Byte): Paper
    requires p.pos < |p.cells|
  {
    if c == BACKSPACE then
      if p.pos > Top(p) && p.pos > 0
      then p.(cells := p.cells[p.pos - 1 := Entry(SPACE, p.color)], pos := p.pos - 1)
      else p
    else if c == RETURN then p.(pos := p.pos - p.pos % WIDTH)
    else if c == NEWLINE then Advance(p, p.pos - p.pos % WIDTH + WIDTH)
    else Advance(p.(cells := p.cells[p.pos := Entry(c, p.color)]), p.pos + 1)
  }

  function Strip(log: seq<Line>): (r: seq<Cell>)
    ensures |r| == |log| * WIDTH
  {
    if log == [] then [] else Strip(log[..|log| - 1]) + log[|log| - 1]
  }

  /** The paper that a console state stands for. */
  function AsPaper(t: Terminal): (p: Paper)
    requires InBounds(t)
    ensures Wide(p) && Top(p) == |t.log| * WIDTH
  {
    Paper(Strip(t.log) + t.screen, (|t.log| + t.row) * WIDTH + t.col, t.color)
  }

  lemma {:induction false} StripRow(log: seq<Line>, k: nat)
    requires k < |log|
    ensures Strip(log)[k * WIDTH..(k + 1) * WIDTH] == log[k]
  {
    var init := log[..|log| - 1];
    if k < |init| {
      StripRow(init, k);
      assert (k + 1) * WIDTH <= |Strip(init)|;
      assert Strip(log)[k * WIDTH..(k + 1) * WIDTH] == Strip(init)[k * WIDTH..(k + 1) * WIDTH];
    } else {
      assert Strip(log)[k * WIDTH..(k + 1) * WIDTH] == log[k];
    }
  }

  /** Scrolling moves the top line from the screen to the log and feeds a blank one; nothing is lost. */
  lemma ScrollFeeds(t: Terminal)
    requires |t.screen| == WIDTH * HEIGHT && t.offset <= Held(t.log)
    ensures var p := AsPaper(ScrollLine(t));
      && p.cells == Strip(t.log) + t.screen + BlankLine(t.color)
      && p.pos == |Strip(t.log) + t.screen|
  {
    var log := t.log + [Row(t.screen, 0)];
    assert log[..|log| - 1] == t.log;
    assert t.screen == Row(t.screen, 0) + t.screen[WIDTH..];
  }

  lemma PositionRow(rows: nat, col: nat)
    requires col < WIDTH
    ensures rows * WIDTH + col - (rows * WIDTH + col) % WIDTH == rows * WIDTH
  {
  }

  lemma LineFeedAdvances(t: Terminal)
    requires InBounds(t)
    ensures AsPaper(LineFeed(t)) == Advance(AsPaper(t), (|t.log| + t.row + 1) * WIDTH)
  {
    if t.row + 1 == HEIGHT { ScrollFeeds(t); }
  }

  lemma PutEntryWrites(t: Terminal, c: Byte, color: Byte, x: nat, y: nat)
    requires InBounds(t) && x < WIDTH && y < HEIGHT
    ensures AsPaper(PutEntry(t, c, color, x, y)).cells
            == AsPaper(t).cells[(|t.log| + y) * WIDTH + x := Entry(c, color)]
  {
  }

  /** Refinement: whatever character is written, the console does to its log and screen what the strip
      does, and the view returns to the bottom first. */
  lemma PutCharTypes(t: Terminal, c: Byte)
    requires InBounds(t)
    ensures AsPaper(PutChar(t, c)) == Type(AsPaper(t), c)
  {
    if c == BACKSPACE {
      EraseTypes(t);
    } else if c == RETURN || c == NEWLINE {
      PositionRow(|t.log| + t.row, t.col);
      LineFeedAdvances(ScrollToBottom(t));
    } else {
      PrintableTypes(t, c);
    }
  }

  lemma EraseTypes(t: Terminal)
    requires InBounds(t)
    ensures AsPaper(PutChar(t, BACKSPACE)) == Type(AsPaper(t), BACKSPACE)
  {
    var s := ScrollToBottom(t);
    if s.col > 0 {
      PutEntryWrites(s.(col := s.col - 1), SPACE, s.color, s.col - 1, s.row);
    } else if s.row > 0 {
      PutEntryWrites(s.(row := s.row - 1, col := WIDTH - 1), SPACE, s.color, WIDTH - 1, s.row - 1);
    }
  }

  lemma PrintableTypes(t: Terminal, c: Byte)
    requires InBounds(t) && c != BACKSPACE && c != RETURN && c != NEWLINE
    ensures AsPaper(PutChar(t, c)) == Type(AsPaper(t), c)
  {
    var s := ScrollToBottom(t);
    PutEntryWrites(s, c, s.color, s.col, s.row);
    LineFeedAdvances(PutEntry(s, c, s.color, s.col, s.row));
  }

  /** The display row that a scrolled view must show, read off the strip. */
  lemma WindowOnPaper(t: Terminal, y: nat)
    requires InBounds(t) && y < HEIGHT
    ensures var p, k := AsPaper(t), |t.log| - t.offset + y;
      WindowLine(t, y) == p.cells[k * WIDTH..(k + 1) * WIDTH]
  {
    var k := |t.log| - t.offset + y;
    var cells := Strip(t.log) + t.screen;
    if y < t.offset {
      StripRow(t.log, k);
      assert (k + 1) * WIDTH <= |Strip(t.log)|;
      assert cells[k * WIDTH..(k + 1) * WIDTH] == Strip(t.log)[k * WIDTH..(k + 1) * WIDTH];
    } else {
      assert cells[k * WIDTH..(k + 1) * WIDTH] == t.screen[(y - t.offset) * WIDTH..(y - t.offset + 1) * WIDTH];
    }
  }

  // ---- Whole sessions ----

  datatype Op = Write(c: Byte) | Scroll(delta: int) | Bottom | SetColor(color: Byte) | Clear

  function Apply(t: Terminal, op: Op): (r: Terminal)
    requires InBounds(t)
    ensures InBounds(r)
  {
    match op
    case Write(c) => PutChar(t, c)
    case Scroll(delta) => ScrollView(t, delta)
    case Bottom => ScrollToBottom(t)
    case SetColor(color) => t.(color := color)
    case Clear => Reset(t.color)
  }

  function ApplyToPaper(p: Paper, op: Op): Paper
    requires p.pos < |p.cells|
  {
    match op
    case Write(c) => Type(p, c)
    case SetColor(color) => p.(color := color)
    case Clear => Paper(BlankScreen(p.color), 0, p.color)
    case _ => p
  }

  function Session(t: Terminal, ops: seq<Op>): (r: Terminal)
    requires InBounds(t)
    ensures InBounds(r)
  {
    if ops == [] then t else Apply(Session(t, ops[..|ops| - 1]), ops[|ops| - 1])
  }

  function PaperSession(p: Paper, ops: seq<Op>): (r: Paper)
    requires Wide(p)
    ensures Wide(r)
  {
    if ops == [] then p
    else
      var q := PaperSession(p, ops[..|ops| - 1]);
      TypeKeepsWide(q, ops[|ops| - 1]);
      ApplyToPaper(q, ops[|ops| - 1])
  }

  lemma TypeKeepsWide(p: Paper, op: Op)
    requires Wide(p)
    ensures Wide(ApplyToPaper(p, op))
  {
    assert (p.pos - p.pos % WIDTH + WIDTH) % WIDTH == 0;
  }

  /** After any session of writes, scrolls, color changes and clears the document is the strip of paper, the
      cursor is on the screen, the view is within the retained lines, and every display row is a row of the
      strip: scrolling back loses nothing that is retained. */
  lemma SessionIsPaper(t: Terminal, ops: seq<Op>)
    requires InBounds(t)
    ensures var s, p := Session(t, ops), PaperSession(AsPaper(t), ops);
      && AsPaper(s) == p
      && s.row < HEIGHT && s.col < WIDTH && s.offset <= Held(s.log)
      && forall y :: 0 <= y < HEIGHT ==>
           (var k := |s.log| - s.offset + y;
           0 <= k * WIDTH && (k + 1) * WIDTH <= |p.cells| && WindowLine(s, y) == p.cells[k * WIDTH..(k + 1) * WIDTH])
  {
    DocumentIsPaper(t, ops);
    var s := Session(t, ops);
    forall y | 0 <= y < HEIGHT
      ensures var k := |s.log| - s.offset + y;
        WindowLine(s, y) == AsPaper(s).cells[k * WIDTH..(k + 1) * WIDTH]
    {
      WindowOnPaper(s, y);
    }
  }

  lemma {:induction false} DocumentIsPaper(t: Terminal, ops: seq<Op>)
    requires InBounds(t)
    ensures AsPaper(Session(t, ops)) == PaperSession(AsPaper(t), ops)
  {
    if ops != [] {
      DocumentIsPaper(t, ops[..|ops| - 1]);
      var s := Session(t, ops[..|ops| - 1]);
      match ops[|ops| - 1]
      case Write(c) => PutCharTypes(s, c);
      case _ =>
    }
  }

  // ---- Where the view is left ----

  /** Writing `c` scrolls the screen: a line feed on the last row, or a printable character at its end. */
  predicate Feeds(t: Terminal, c: Byte) {
    t.row == HEIGHT - 1 && (c == NEWLINE || (c != BACKSPACE && c != RETURN && t.col == WIDTH - 1))
  }

  /** The view moves by the amount asked for, back or forth, and stops at the bottom and at the oldest of the
      last 256 lines that have scrolled off. */
  lemma ScrollMoves(t: Terminal, delta: int)
    requires InBounds(t)
    ensures var r, top := ScrollView(t, delta), if |t.log| < 256 then |t.log| else 256;
      && r == t.(offset := r.offset)
      && r.offset == if t.offset + delta < 0 then 0 else if t.offset + delta > top then top else t.offset + delta
  {
  }

  /** Where the cursor goes, counted in cells from the top left corner: back by one, to the start of the row, to
      the next row, or on by one; past the last cell of the 25 rows of 80 the screen scrolls under it. */
  lemma CursorMoves(t: Terminal, c: Byte)
    requires InBounds(t)
    ensures var at, u := 80 * t.row + t.col, PutChar(t, c);
            var to := if c == 8 then (if at == 0 then 0 else at - 1) else if c == 13 then 80 * t.row
                      else if c == 10 then 80 * (t.row + 1) else at + 1;
      if to < 80 * 25 then 80 * u.row + u.col == to && u.log == t.log
      else u.row == 24 && u.col == 0 && |u.log| == |t.log| + 1
  {
  }

  /** A cleared console and a fresh line, in numbers. */
  lemma BlankCells(color: Byte)
    ensures var t := Reset(color);
      && t.log == [] && t.offset == t.row == t.col == 0 && t.color == color && |t.screen| == 80 * 25
      && (forall i :: 0 <= i < 80 * 25 ==> t.screen[i] == 0x20 + 0x100 * color)
    ensures |BlankLine(color)| == 80 && forall i :: 0 <= i < 80 ==> BlankLine(color)[i] == 0x20 + 0x100 * color
  {
  }

  /** A cell holds the character in its low byte and the color in its high byte; erasing writes a blank. */
  lemma CellParts(t: Terminal, c: Byte)
    requires InBounds(t) && c != 8 && c != 10 && c != 13 && 80 * t.row + t.col + 1 < 80 * 25
    ensures var at, u := 80 * t.row + t.col, PutChar(t, c);
      && u.screen[at] % 0x100 == c && u.screen[at] / 0x100 == t.color
      && (forall i :: 0 <= i < 80 * 25 && i != at ==> u.screen[i] == t.screen[i])
      && PutChar(u, 8).screen[at] == 0x20 + 0x100 * t.color
  {
  }

  /** The screen as the write leaves it before any scrolling. */
  function Written(t: Terminal, c: Byte): Terminal
    requires InBounds(t)
  {
    if c == NEWLINE then t else PutEntry(t, c, t.color, t.col, t.row)
  }

  /** A write ends with the view at the bottom if and only if it did not scroll the screen. Otherwise the view
      is one line above the bottom: the display still shows the screen as it was just before the scroll, and
      the new last row, where the cursor is, does not appear. */
  lemma FeedLeavesViewBack(t: Terminal, c: Byte)
    requires InBounds(t)
    ensures PutChar(t, c).offset == 0 <==> !Feeds(t, c)
    ensures !Feeds(t, c) ==> forall y :: 0 <= y < HEIGHT ==>
      WindowLine(PutChar(t, c), y) == Row(PutChar(t, c).screen, y)
    ensures Feeds(t, c) ==>
      var u := PutChar(t, c);
      && u.offset == 1 && u.row == HEIGHT - 1 && Row(u.screen, HEIGHT - 1) == BlankLine(t.color)
      && forall y :: 0 <= y < HEIGHT ==> WindowLine(u, y) == Row(Written(t, c).screen, y)
  {
    if Feeds(t, c) {
      var u, w := PutChar(t, c), Written(t, c);
      forall y | 0 <= y < HEIGHT ensures WindowLine(u, y) == Row(w.screen, y) {
        if y > 0 { assert Row(u.screen, y - 1) == Row(w.screen, y); }
      }
    }
  }

  /** Exactly which operations end with the view at the bottom. */
  lemma ViewAtBottom(t: Terminal, op: Op)
    requires InBounds(t)
    ensures Apply(t, op).offset == 0 <==>
      match op
      case Write(c) => !Feeds(t, c)
      case Scroll(delta) => if delta <= 0 then t.offset <= -delta else t.log == []
      case Bottom => true
      case SetColor(_) => t.offset == 0
      case Clear => true
  {
    match op
    case Write(c) => FeedLeavesViewBack(t, c);
    case _ =>
  }
}
