/** The console's own code: a ring of scrolled-off lines, a screen buffer and the display memory. */
module TerminalCode {
  import opened Basics
  import opened TerminalModel

  class Console {
    var row: nat
    var col: nat
    var color: Byte
    const vga: array<Cell>
    const screen: array<Cell>
    const scrollback: array<Line>
    var head: nat
    var count: nat
    var offset: nat
    /** Every line scrolled off since the last clear. */
    ghost var log: seq<Line>

    ghost predicate Shape()
      reads this, vga, screen, scrollback
    {
      && vga.Length == screen.Length == WIDTH * HEIGHT && vga != screen
      && scrollback.Length == SCROLLBACK_LINES
      && count == Held(log) && head == |log| % SCROLLBACK_LINES
      && forall k :: |log| - count <= k < |log| ==> scrollback[k % SCROLLBACK_LINES] == log[k]
    }

    ghost predicate Valid()
      reads this, vga, screen, scrollback
    {
      Shape() && InBounds(View())
    }

    ghost function View(): Terminal
      reads this, screen
    {
      Terminal(log, screen[..], offset, row, col, color)
    }

    /** The display shows the window that `offset` selects. */
    ghost predicate Displayed()
      requires Valid()
      reads this, vga, screen, scrollback
    {
      forall y :: 0 <= y < HEIGHT ==> Row(vga[..], y) == WindowLine(View(), y)
    }

    constructor (color: Byte)
      ensures Valid() && Displayed() && View() == Reset(color)
      ensures fresh(vga) && fresh(screen) && fresh(scrollback)
    {
      this.color := color;
      row, col, head, count, offset := 0, 0, 0, 0, 0;
      vga := new Cell[WIDTH * HEIGHT](_ => 0);
      screen := new Cell[WIDTH * HEIGHT](_ => 0);
      scrollback := new Line[SCROLLBACK_LINES](_ => BlankLine(0));
      log := [];
      new;
      BlankAll();
      assert screen[..] == BlankScreen(color);
      Render();
    }

    method BlankAll()
      requires screen.Length == WIDTH * HEIGHT
      modifies screen
      ensures screen[..] == BlankScreen(color)
    {
      for y := 0 to HEIGHT
        invariant forall i :: 0 <= i < y * WIDTH ==> screen[i] == Entry(SPACE, color)
      {
        for x := 0 to WIDTH
          invariant forall i :: 0 <= i < y * WIDTH + x ==> screen[i] == Entry(SPACE, color)
        {
          screen[y * WIDTH + x] := Entry(SPACE, color);
        }
      }
    }

    method PushLine(line: Line)
      requires Shape()
      modifies this`head, this`count, this`log, scrollback
      ensures Shape() && log == old(log) + [line]
    {
      scrollback[head] := line;
      head := (head + 1) % SCROLLBACK_LINES;
      if count < SCROLLBACK_LINES { count := count + 1; }
      log := log + [line];
      forall k | |log| - count <= k < |log| ensures scrollback[k % SCROLLBACK_LINES] == log[k] {
        if k < |log| - 1 { SlotsApart(k, |log| - 1); }
      }
    }

    /** Two lines that are both retained live in different ring slots. */
    lemma SlotsApart(k: nat, n: nat)
      requires k < n < k + SCROLLBACK_LINES
      ensures k % SCROLLBACK_LINES != n % SCROLLBACK_LINES
    {
    }

    method BaseIndex() returns (base: nat)
      requires Shape()
      ensures base == (|log| - count) % SCROLLBACK_LINES
    {
      if count == 0 { return 0; }
      return (head + SCROLLBACK_LINES - count) % SCROLLBACK_LINES;
    }

    method CopyRow(y: nat, line: Line)
      requires y < HEIGHT && vga.Length == WIDTH * HEIGHT
      modifies vga
      ensures Row(vga[..], y) == line
      ensures forall z :: 0 <= z < HEIGHT && z != y ==> Row(vga[..], z) == old(Row(vga[..], z))
    {
      forall x | 0 <= x < WIDTH {
        vga[y * WIDTH + x] := line[x];
      }
      forall z | 0 <= z < HEIGHT && z != y ensures Row(vga[..], z) == old(Row(vga[..], z)) {
        assert forall x :: 0 <= x < WIDTH ==> Row(vga[..], z)[x] == vga[z * WIDTH + x];
      }
    }

    method CopyScreenRow(y: nat, line: nat)
      requires y < HEIGHT && line < HEIGHT && vga.Length == screen.Length == WIDTH * HEIGHT && vga != screen
      modifies vga
      ensures Row(vga[..], y) == Row(screen[..], line)
      ensures forall z :: 0 <= z < HEIGHT && z != y ==> Row(vga[..], z) == old(Row(vga[..], z))
    {
      CopyRow(y, screen[line * WIDTH..(line + 1) * WIDTH]);
    }

    method Render()
      requires Shape() && |screen[..]| == WIDTH * HEIGHT && row < HEIGHT && col < WIDTH
      modifies this`offset, vga
      ensures Valid() && Displayed()
      ensures View() == old(View()).(offset := if old(offset) > Held(log) then Held(log) else old(offset))
    {
      if offset > count { offset := count; }
      var total := count + HEIGHT;
      var start := 0;
      if total > HEIGHT { start := total - HEIGHT - offset; }
      assert start == count - offset;
      var base := BaseIndex();
      ghost var t := View();
      for y := 0 to HEIGHT
        invariant View() == t
        invariant forall z :: 0 <= z < y ==> Row(vga[..], z) == WindowLine(t, z)
      {
        var index := start + y;
        if index < count {
          RingIndex(|log| - count, base, index);
          CopyRow(y, scrollback[(base + index) % SCROLLBACK_LINES]);
        } else {
          // The window never reaches below the screen, so the source's blank rows do not occur.
          CopyScreenRow(y, index - count);
        }
      }
    }

    lemma RingIndex(first: nat, base: nat, index: nat)
      requires base == first % SCROLLBACK_LINES
      ensures (base + index) % SCROLLBACK_LINES == (first + index) % SCROLLBACK_LINES
    {
    }

    method PutEntryAt(c: Byte, color: Byte, x: nat, y: nat)
      requires Valid() && x < WIDTH && y < HEIGHT
      modifies screen, vga
      ensures Valid() && View() == PutEntry(old(View()), c, color, x, y)
      // The display follows the buffer exactly when the cell's row is not scrolled into view unrefreshed.
      ensures old(Displayed()) ==>
        (Displayed() <==> offset == 0 || y + offset >= HEIGHT || old(screen[y * WIDTH + x]) == Entry(c, color))
    {
      var index := y * WIDTH + x;
      screen[index] := Entry(c, color);
      if offset == 0 {
        vga[index] := screen[index];
      }
      if old(Displayed()) {
        EntryShown(old(View()), old(vga[..]), View(), vga[..], c, color, x, y);
      }
    }

    method ScrollLineUp()
      requires Shape() && |screen[..]| == WIDTH * HEIGHT && offset <= Held(log)
      modifies this, screen, vga, scrollback
      ensures Valid() && Displayed() && View() == ScrollLine(old(View()))
    {
      PushLine(screen[..WIDTH]);
      forall i | 0 <= i < (HEIGHT - 1) * WIDTH {
        screen[i] := screen[i + WIDTH];
      }
      forall x | 0 <= x < WIDTH {
        screen[(HEIGHT - 1) * WIDTH + x] := Entry(SPACE, color);
      }
      assert screen[..] == old(screen[..])[WIDTH..] + BlankLine(color);
      row := HEIGHT - 1;
      col := 0;
      // The source clamps once more after the increment; offset < count makes that a no-op.
      if offset < count { offset := offset + 1; }
      Render();
    }

    method WriteChar(c: Byte)
      requires Valid() && Displayed()
      modifies this, screen, vga, scrollback
      ensures Valid() && Displayed() && View() == PutChar(old(View()), c)
    {
      if offset > 0 { ScrollBottom(); }
      if c == BACKSPACE {
        Erase();
        return;
      }
      if c == RETURN {
        col := 0;
        return;
      }
      if c == NEWLINE {
        NextRow();
        return;
      }
      PutEntryAt(c, color, col, row);
      if col + 1 == WIDTH { NextRow(); } else { col := col + 1; }
    }

    method Erase()
      requires Valid() && Displayed() && offset == 0
      modifies this, screen, vga
      ensures Valid() && Displayed() && View() == PutChar(old(View()), BACKSPACE)
    {
      hide Row, WindowLine, Entry, Held;
      if col > 0 {
        col := col - 1;
      } else if row > 0 {
        row := row - 1;
        col := WIDTH - 1;
      } else {
        return;
      }
      CursorApart(old(View()), row, col);
      PutEntryAt(SPACE, color, col, row);
    }

    method NextRow()
      requires Valid() && Displayed()
      modifies this, screen, vga, scrollback
      ensures Valid() && Displayed() && View() == LineFeed(old(View()))
    {
      col := 0;
      row := row + 1;
      if row == HEIGHT { ScrollLineUp(); }
    }

    method Clear()
      requires Valid()
      modifies this, screen, vga
      ensures Valid() && Displayed() && View() == Reset(old(color))
    {
      BlankAll();
      row, col := 0, 0;
      head, count, offset := 0, 0, 0;
      log := [];
      Render();
    }

    method Scroll(delta: int)
      requires Valid()
      modifies this, vga
      ensures Valid() && Displayed() && View() == ScrollView(old(View()), delta)
    {
      if delta > 0 {
        if offset + delta > count { offset := count; } else { offset := offset + delta; }
      } else if delta < 0 {
        var step := -delta;
        if offset <= step { offset := 0; } else { offset := offset - step; }
      }
      Render();
    }

    method ScrollBottom()
      requires Valid()
      modifies this, vga
      ensures Valid() && Displayed() && View() == ScrollToBottom(old(View()))
    {
      offset := 0;
      Render();
    }

    method SetColor(c: Byte)
      requires Valid() && Displayed()
      modifies this`color
      ensures Valid() && Displayed() && View() == old(View()).(color := c)
    {
      color := c;
    }
  }

  /** Writing one cell, seen through the window: rows scrolled below the display do not matter. */
  lemma EntryShown(t: Terminal, vga: seq<Cell>, u: Terminal, vga': seq<Cell>, c: Byte, color: Byte, x: nat, y: nat)
    requires InBounds(t) && x < WIDTH && y < HEIGHT && u == PutEntry(t, c, color, x, y)
    requires |vga| == WIDTH * HEIGHT && forall z :: 0 <= z < HEIGHT ==> Row(vga, z) == WindowLine(t, z)
    requires vga' == if t.offset == 0 then vga[y * WIDTH + x := Entry(c, color)] else vga
    ensures (forall z :: 0 <= z < HEIGHT ==> Row(vga', z) == WindowLine(u, z)) <==>
      t.offset == 0 || y + t.offset >= HEIGHT || t.screen[y * WIDTH + x] == Entry(c, color)
  {
    hide Row;
    forall z | 0 <= z < HEIGHT
      ensures Row(u.screen, z) == if z == y then Row(t.screen, y)[x := Entry(c, color)] else Row(t.screen, z)
      ensures t.offset == 0 ==> Row(vga', z) == if z == y then Row(vga, y)[x := Entry(c, color)] else Row(vga, z)
    {
      RowUpdate(t.screen, x, y, Entry(c, color), z);
      RowUpdate(vga, x, y, Entry(c, color), z);
    }
    RowCell(t.screen, x, y);
    if t.offset > 0 && y + t.offset < HEIGHT {
      assert Row(vga', y + t.offset) == Row(t.screen, y) && WindowLine(u, y + t.offset) == Row(u.screen, y);
    }
  }

  /** The window does not depend on the cursor. */
  lemma CursorApart(t: Terminal, row: nat, col: nat)
    requires InBounds(t) && row < HEIGHT && col < WIDTH
    ensures forall z :: 0 <= z < HEIGHT ==> WindowLine(t.(row := row, col := col), z) == WindowLine(t, z)
  {
  }

  lemma RowCell(cells: seq<Cell>, x: nat, y: nat)
    requires |cells| == WIDTH * HEIGHT && x < WIDTH && y < HEIGHT
    ensures Row(cells, y)[x] == cells[y * WIDTH + x]
  {
  }

  lemma RowUpdate(cells: seq<Cell>, x: nat, y: nat, e: Cell, z: nat)
    requires |cells| == WIDTH * HEIGHT && x < WIDTH && y < HEIGHT && z < HEIGHT
    ensures Row(cells[y * WIDTH + x := e], z) == if z == y then Row(cells, y)[x := e] else Row(cells, z)
  {
    assert y < z ==> y * WIDTH + x < z * WIDTH;
    assert z < y ==> (z + 1) * WIDTH <= y * WIDTH + x;
  }
}
