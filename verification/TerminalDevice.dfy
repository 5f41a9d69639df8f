/**
 * The terminals of drivers/tty.c in memory: buffers changed in place, a console painted
 * from them, and repaints that may be put off. Every operation does to a terminal what
 * Terminal says a byte does, and leaves the console showing it or owes it a repaint.
 */
module TerminalDevice {
  import opened Common
  import opened Terminal

  /** An array holding a grid. */
  ghost predicate Shows(b: array2<Cell>, g: Grid)
    reads b
  {
    && b.Length0 == MAX_SCROLL && b.Length1 == WIDTH
    && forall y, x :: 0 <= y < MAX_SCROLL && 0 <= x < WIDTH ==> b[y, x] == g[y][x]
  }

  /** Some rows from one grid, the others from another. */
  ghost function Splice(a: Grid, b: Grid, from: int, to: int): Grid {
    seq(MAX_SCROLL, y requires 0 <= y < MAX_SCROLL => SplicedRow(a, b, y, from, to))
  }

  ghost function SplicedRow(a: Grid, b: Grid, y: nat, from: int, to: int): Row
    requires y < MAX_SCROLL
  {
    if from <= y <= to then a[y] else b[y]
  }

  lemma OpenThenBlank(g: Grid, first: nat, bot: nat, n: nat, color: bv8)
    requires bot < MAX_SCROLL && 1 <= n <= bot - first + 1
    ensures ClearSpan(Splice(OpenRows(g, first, bot, n, color), g, first + n, bot), first, 0, first + n - 1, WIDTH - 1, color)
            == OpenRows(g, first, bot, n, color)
  {
    var open := OpenRows(g, first, bot, n, color);
    var s := Splice(open, g, first + n, bot);
    forall y | 0 <= y < MAX_SCROLL
      ensures ClearSpan(s, first, 0, first + n - 1, WIDTH - 1, color)[y] == open[y]
    {
      assert forall x :: 0 <= x < WIDTH ==> ClearSpan(s, first, 0, first + n - 1, WIDTH - 1, color)[y][x] == open[y][x];
    }
  }

  lemma CloseThenBlank(g: Grid, first: nat, bot: nat, n: nat, color: bv8)
    requires bot < MAX_SCROLL && 1 <= n <= bot - first + 1
    ensures ClearSpan(Splice(CloseRows(g, first, bot, n, color), g, first, bot - n), bot - n + 1, 0, bot, WIDTH - 1, color)
            == CloseRows(g, first, bot, n, color)
  {
    var closed := CloseRows(g, first, bot, n, color);
    var s := Splice(closed, g, first, bot - n);
    forall y | 0 <= y < MAX_SCROLL
      ensures ClearSpan(s, bot - n + 1, 0, bot, WIDTH - 1, color)[y] == closed[y]
    {
      assert forall x :: 0 <= x < WIDTH ==> ClearSpan(s, bot - n + 1, 0, bot, WIDTH - 1, color)[y][x] == closed[y][x];
    }
  }

  /** Colour parameters applied from left to right. */
  method FoldSgr(fg0: bv8, bg0: bv8, ps: seq<U32>) returns (fg: bv8, bg: bv8)
    ensures (fg, bg) == Sgr(fg0, bg0, ps)
  {
    hide SgrParam;
    fg, bg := fg0, bg0;
    for i := 0 to |ps|
      invariant (fg, bg) == Sgr(fg0, bg0, ps[..i])
    {
      assert ps[..i + 1][..i] == ps[..i];
      var (f, b) := SgrParam(fg, bg, ps[i]);
      fg, bg := f, b;
    }
    assert ps[..|ps|] == ps;
  }

  // ---- One terminal ------------------------------------------------------------------------

  class VirtualTerminal {
    var x: U32
    var y: U32
    var view: nat
    var color: bv8
    var esc: Esc
    var params: seq<U32>
    var count: nat
    var savedX: U32
    var savedY: U32
    var top: U32
    var bottom: U32
    const buffer: array2<Cell>

    ghost predicate Fields(t: Term)
      reads this
    {
      && x == t.x && y == t.y && view == t.view && color == t.color
      && esc == t.esc && params == t.params && count == t.count
      && savedX == t.savedX && savedY == t.savedY && top == t.top && bottom == t.bottom
    }

    ghost predicate Matches(t: Term)
      reads this, buffer
    {
      Fields(t) && Shows(buffer, t.grid)
    }

    constructor ()
      ensures fresh(buffer) && Matches(Fresh())
    {
      x, y, view, color := 0, 0, 0, 7;
      esc, params, count := Ground, NO_PARAMS, 0;
      savedX, savedY, top, bottom := 0, 0, 1, TERM_ROWS;
      buffer := new Cell[MAX_SCROLL, WIDTH]((_, _) => Blank(7));
    }

    /** Blanks a span of cells, row by row. */
    method BlankSpan(fromY: nat, fromX: nat, toY: nat, toX: nat, ghost g: Grid)
      requires Shows(buffer, g)
      modifies buffer
      ensures Shows(buffer, ClearSpan(g, fromY, fromX, toY, toX, color))
    {
      ghost var g' := ClearSpan(g, fromY, fromX, toY, toX, color);
      var row := fromY;
      while row <= toY && row < MAX_SCROLL
        invariant fromY <= row
        invariant forall y, x :: 0 <= y < row && y < MAX_SCROLL && 0 <= x < WIDTH ==> buffer[y, x] == g'[y][x]
        invariant forall y, x :: row <= y < MAX_SCROLL && 0 <= x < WIDTH ==> buffer[y, x] == g[y][x]
        decreases MAX_SCROLL - row
      {
        BlankRowSpan(row, if row == fromY then fromX else 0, if row == toY then toX else WIDTH - 1);
        row := row + 1;
      }
    }

    method BlankRowSpan(row: nat, from: nat, to: nat)
      requires row < MAX_SCROLL && buffer.Length0 == MAX_SCROLL && buffer.Length1 == WIDTH
      modifies buffer
      ensures forall y, x :: 0 <= y < MAX_SCROLL && 0 <= x < WIDTH ==>
        buffer[y, x] == if y == row && from <= x <= to then Blank(color) else old(buffer[y, x])
    {
      var col := from;
      while col <= to && col < WIDTH
        invariant from <= col && (col == from || col <= to + 1)
        invariant forall y, x :: 0 <= y < MAX_SCROLL && 0 <= x < WIDTH ==>
          buffer[y, x] == if y == row && from <= x < col then Blank(color) else old(buffer[y, x])
        decreases WIDTH - col
      {
        buffer[row, col] := Blank(color);
        col := col + 1;
      }
    }

    method CopyRow(from: nat, to: nat)
      requires from < MAX_SCROLL && to < MAX_SCROLL && from != to && buffer.Length0 == MAX_SCROLL && buffer.Length1 == WIDTH
      modifies buffer
      ensures forall y, x :: 0 <= y < MAX_SCROLL && 0 <= x < WIDTH ==>
        buffer[y, x] == if y == to then old(buffer[from, x]) else old(buffer[y, x])
    {
      var col := 0;
      while col < WIDTH
        invariant col <= WIDTH
        invariant forall y, x :: 0 <= y < MAX_SCROLL && 0 <= x < WIDTH ==>
          buffer[y, x] == if y == to && x < col then old(buffer[from, x]) else old(buffer[y, x])
      {
        buffer[to, col] := buffer[from, col];
        col := col + 1;
      }
    }

    /** Rows move down, from the bottom up, so that each is copied before it is overwritten. */
    method MoveDown(first: nat, bot: nat, n: nat, ghost g: Grid)
      requires Shows(buffer, g) && bot < MAX_SCROLL && 1 <= n <= bot - first + 1
      modifies buffer
      ensures Shows(buffer, Splice(OpenRows(g, first, bot, n, color), g, first + n, bot))
    {
      ghost var moved := OpenRows(g, first, bot, n, color);
      var row := bot + 1;
      while row > first + n
        invariant first + n <= row <= bot + 1
        invariant forall r, c :: 0 <= r < MAX_SCROLL && 0 <= c < WIDTH ==>
          buffer[r, c] == if row <= r <= bot then moved[r][c] else g[r][c]
      {
        row := row - 1;
        CopyRow(row - n, row);
      }
    }

    /** Rows move up, from the top down. */
    method MoveUp(first: nat, bot: nat, n: nat, ghost g: Grid)
      requires Shows(buffer, g) && bot < MAX_SCROLL && 1 <= n <= bot - first + 1
      modifies buffer
      ensures Shows(buffer, Splice(CloseRows(g, first, bot, n, color), g, first, bot - n))
    {
      ghost var moved := CloseRows(g, first, bot, n, color);
      var row := first;
      while row + n <= bot
        invariant first <= row <= bot - n + 1
        invariant forall r, c :: 0 <= r < MAX_SCROLL && 0 <= c < WIDTH ==>
          buffer[r, c] == if first <= r < row then moved[r][c] else g[r][c]
      {
        CopyRow(row + n, row);
        row := row + 1;
      }
    }

    /** Opens blank lines at the cursor, pushing the rest of the region down. */
    method InsertLinesAt(n0: U32, ghost t: Term)
      requires Matches(t) && Bounded(t)
      modifies buffer
      ensures Matches(InsertLines(t, n0))
    {
      hide Shows, OpenRows, Splice, ClearSpan;
      var bot := view + bottom - 1;
      var n := OrOne(n0);
      if y < view + top - 1 || y > bot {
        return;
      }
      if n > bot - y + 1 {
        n := bot - y + 1;
      }
      MoveDown(y, bot, n, t.grid);
      BlankSpan(y, 0, y + n - 1, WIDTH - 1, Splice(OpenRows(t.grid, y, bot, n, color), t.grid, y + n, bot));
      OpenThenBlank(t.grid, y, bot, n, color);
    }

    /** Removes lines at the cursor, pulling the rest of the region up. */
    method DeleteLinesAt(n0: U32, ghost t: Term)
      requires Matches(t) && Bounded(t)
      modifies buffer
      ensures Matches(DeleteLines(t, n0))
    {
      hide Shows, CloseRows, Splice, ClearSpan;
      var bot := view + bottom - 1;
      var n := OrOne(n0);
      if y < view + top - 1 || y > bot {
        return;
      }
      if n > bot - y + 1 {
        n := bot - y + 1;
      }
      MoveUp(y, bot, n, t.grid);
      BlankSpan(bot - n + 1, 0, bot, WIDTH - 1, Splice(CloseRows(t.grid, y, bot, n, color), t.grid, y, bot - n));
      CloseThenBlank(t.grid, y, bot, n, color);
    }

    method ApplySgr(ghost t: Term)
      requires Matches(t) && Bounded(t)
      modifies this`color
      ensures Matches(t.(color := SgrColor(t)))
    {
      hide Sgr, Foreground, Background, Color;
      var fg, bg := FoldSgr(Foreground(color), Background(color), params[..if count == 0 then 1 else count]);
      color := Color(fg, bg);
    }

    /** The whole buffer moves up by a row. */
    method ScrollBuffer(ghost g: Grid)
      requires Shows(buffer, g)
      modifies buffer
      ensures Shows(buffer, ScrollUp(g, color))
    {
      ghost var moved := ScrollUp(g, color);
      for row := 1 to MAX_SCROLL
        invariant forall r, c :: 0 <= r < MAX_SCROLL && 0 <= c < WIDTH ==>
          buffer[r, c] == if r < row - 1 then moved[r][c] else g[r][c]
      {
        CopyRow(row, row - 1);
      }
      BlankRowSpan(MAX_SCROLL - 1, 0, WIDTH - 1);
    }

    /** Carries out a completed sequence. */
    method DispatchCsi(final: Ch, ghost t: Term)
      requires Matches(t) && Bounded(t)
      modifies this, buffer
      ensures Matches(Dispatch(t, final))
    {
      hide Shows, ClearSpan, InsertLines, DeleteLines, SgrColor;
      var p0: U32 := if count > 0 then params[0] else 0;
      var p1: U32 := if count > 1 then params[1] else 0;
      var bottomRow := view + TERM_ROWS - 1;
      match final as char
      case 'H' => MoveCursor(p0, p1, t);
      case 'f' => MoveCursor(p0, p1, t);
      case 'A' => y := if y > Add32(view, OrOne(p0)) then Sub32(y, OrOne(p0)) else view;
      case 'B' => y := if Add32(y, OrOne(p0)) < bottomRow then Add32(y, OrOne(p0)) else bottomRow;
      case 'C' => x := if Add32(x, OrOne(p0)) < WIDTH then Add32(x, OrOne(p0)) else WIDTH - 1;
      case 'D' => x := if x > OrOne(p0) then x - OrOne(p0) else 0;
      case 'J' =>
        if p0 == 1 {
          BlankSpan(view, 0, y, x, t.grid);
        } else if p0 == 2 {
          BlankSpan(view, 0, bottomRow, WIDTH - 1, t.grid);
        } else {
          BlankSpan(y, x, bottomRow, WIDTH - 1, t.grid);
        }
      case 'K' =>
        if p0 == 1 {
          BlankSpan(y, 0, y, x, t.grid);
        } else if p0 == 2 {
          BlankSpan(y, 0, y, WIDTH - 1, t.grid);
        } else {
          BlankSpan(y, x, y, WIDTH - 1, t.grid);
        }
      case 'm' => ApplySgr(t);
      case 's' => savedX, savedY := x, y;
      case 'u' => x, y := savedX, savedY;
      case 'r' => SetScrollRegion(p0, p1, t);
      case 'L' => InsertLinesAt(p0, t);
      case 'M' => DeleteLinesAt(p0, t);
      case _ =>
    }

    method MoveCursor(p0: U32, p1: U32, ghost t: Term)
      requires Matches(t) && Bounded(t)
      modifies this
      ensures Matches(t.(y := RowToBuffer(t, OrOne(p0)), x := if OrOne(p1) > WIDTH then WIDTH - 1 else OrOne(p1) - 1))
    {
      var row := OrOne(p0);
      if row > TERM_ROWS {
        row := TERM_ROWS;
      }
      y := view + row - 1;
      x := OrOne(p1) - 1;
      if x >= WIDTH {
        x := WIDTH - 1;
      }
    }

    method SetScrollRegion(p0: U32, p1: U32, ghost t: Term)
      requires Matches(t) && Bounded(t)
      modifies this
      ensures Matches(SetRegion(t, p0, p1))
    {
      var a: U32 := OrOne(p0);
      var b: U32 := if p1 == 0 then TERM_ROWS else p1;
      if b > TERM_ROWS {
        b := TERM_ROWS;
      }
      if a >= b {
        a, b := 1, TERM_ROWS;
      }
      top, bottom := a, b;
      y, x := view + a - 1, 0;
    }

    /** A byte inside a sequence. Returns whether it was taken, and whether it completed the sequence. */
    method EscapeFeed(c: Ch, ghost t: Term) returns (taken: bool, completed: bool)
      requires Matches(t) && Bounded(t) && t.esc != Ground && c != 27
      modifies this, buffer
      ensures taken <==> c >= 32
      ensures Matches(if taken then Put(t, c) else t.(esc := Ground))
      ensures !completed && taken ==> Put(t, c) == t.(esc := Put(t, c).esc, params := Put(t, c).params, count := Put(t, c).count)
    {
      hide Shows, Dispatch, Text;
      taken, completed := true, false;
      if c < 32 {
        esc := Ground;
        taken := false;
      } else if esc == Escape {
        if c == 91 {
          esc, count, params := Csi, 0, params[0 := 0];
        } else {
          esc := Ground;
        }
      } else if IsDigit(c) {
        if count == 0 {
          count := 1;
        }
        params := params[count - 1 := (params[count - 1] * 10 + c - 48) % TWO32];
      } else if c == 59 {
        if count == 0 {
          count := 1;
        }
        if count < MAX_PARAMS {
          params := params[count := 0];
          count := count + 1;
        }
      } else {
        DispatchCsi(c, t);
        esc := Ground;
        completed := true;
      }
    }

    method BackspaceAt(ghost t: Term)
      requires Matches(t) && Bounded(t)
      modifies this, buffer
      ensures Matches(Backspace(t)) && y < MAX_SCROLL && x < WIDTH
      ensures buffer.Length0 == MAX_SCROLL && buffer.Length1 == WIDTH && buffer[y, x] == Blank(color)
    {
      if x > 0 {
        x := x - 1;
      } else if y > 0 {
        y := y - 1;
        x := WIDTH - 1;
      }
      buffer[y, x] := Blank(color);
    }

    method StoreAt(c: Ch, ghost t: Term)
      requires Matches(t) && Bounded(t)
      modifies buffer
      ensures Matches(t.(grid := SetCell(t.grid, t.y, t.x, Cell(c, t.color))))
      ensures buffer.Length0 == MAX_SCROLL && buffer.Length1 == WIDTH && buffer[y, x] == Cell(c, color)
    {
      buffer[y, x] := Cell(c, color);
    }

    method Advance(c: Ch, ghost t: Term)
      requires Bounded(t) && Matches(t.(grid := SetCell(t.grid, t.y, t.x, Cell(c, t.color))))
      modifies this
      ensures Matches(Print(t, c))
    {
      hide Shows, SetCell;
      x := x + 1;
      if x >= WIDTH {
        x := 0;
        y := y + 1;
      }
    }

    method NewLineAt(ghost t: Term)
      requires Matches(t) && Bounded(t)
      modifies this
      ensures Matches(NewLine(t))
    {
      x := 0;
      y := y + 1;
    }

    /** The buffer scrolls and the window follows; says whether the window now shows other rows. */
    method Settle(ghost t: Term) returns (redraw: bool)
      requires Matches(t) && t.y <= MAX_SCROLL && t.view <= MAX_SCROLL - TERM_ROWS
      modifies this, buffer
      ensures Matches(Follow(Overflow(t)))
      ensures !redraw ==> Follow(Overflow(t)) == t
    {
      hide Shows, ScrollUp;
      redraw := false;
      var before := view;
      if y >= MAX_SCROLL {
        ScrollBuffer(t.grid);
        y := MAX_SCROLL - 1;
        redraw := true;
      }
      if y > view + (TERM_ROWS - 1) {
        view := y - (TERM_ROWS - 1);
      } else if y < view {
        view := y;
      }
      if view != before {
        redraw := true;
      }
    }
  }

  // ---- The terminals and the console ---------------------------------------------------------

  const NUM_TERMINALS := 3

  class Tty {
    const terminals: seq<VirtualTerminal>
    var current: nat
    var deferred: bool
    var owed: bool
    const cells: array2<Cell>
    var cursorX: nat
    var cursorY: nat
    ghost var paints: nat    // repaints of the whole window so far

    ghost predicate Separate()
      reads this`current
    {
      && |terminals| == NUM_TERMINALS && current < NUM_TERMINALS
      && cells.Length0 == HEIGHT && cells.Length1 == WIDTH
      && (forall i, j :: 0 <= i < j < NUM_TERMINALS ==> terminals[i] != terminals[j] && terminals[i].buffer != terminals[j].buffer)
      && forall i :: 0 <= i < NUM_TERMINALS ==> terminals[i].buffer != cells
    }

    ghost predicate Holds(ts: seq<Term>)
      reads this`current, terminals, set i | 0 <= i < |terminals| :: terminals[i].buffer
    {
      && Separate() && |ts| == NUM_TERMINALS
      && forall i :: 0 <= i < NUM_TERMINALS ==> terminals[i].Matches(ts[i]) && Bounded(ts[i])
    }

    /** The text rows of the console are the terminal's window. */
    ghost predicate RowsPainted(t: Term)
      requires cells.Length0 == HEIGHT && cells.Length1 == WIDTH && t.view <= MAX_SCROLL - TERM_ROWS
      reads cells
    {
      forall r, c :: 1 <= r < HEIGHT && 0 <= c < WIDTH ==> cells[r, c] == t.grid[t.view + r - 1][c]
    }

    /** The cursor shows where the terminal's is, unless that is above the window. */
    ghost predicate CursorPainted(t: Term)
      reads this`cursorX, this`cursorY
    {
      t.y >= t.view ==> (cursorX, cursorY) == if InWindow(t) then (t.x, t.y - t.view + 1) else (WIDTH, HEIGHT)
    }

    /** The console shows the current terminal, or a repaint is owed; and none is owed outside a batch. */
    ghost predicate Valid(ts: seq<Term>)
      reads this, terminals, set i | 0 <= i < |terminals| :: terminals[i].buffer, cells
    {
      && Holds(ts) && (owed ==> deferred)
      && (owed || (RowsPainted(ts[current]) && CursorPainted(ts[current])))
    }

    /** The status bar is as it was. */
    twostate predicate StatusKept()
      requires cells.Length0 == HEIGHT && cells.Length1 == WIDTH
      reads cells
    {
      forall c :: 0 <= c < WIDTH ==> cells[0, c] == old(cells[0, c])
    }

    /** Three blank terminals, the first of them on the screen. */
    constructor ()
      ensures Valid([Fresh(), Fresh(), Fresh()]) && current == 0 && !deferred && !owed
    {
      var a := new VirtualTerminal();
      var b := new VirtualTerminal();
      var c := new VirtualTerminal();
      terminals := [a, b, c];
      current, deferred, owed, cursorX, cursorY, paints := 0, false, false, 0, 0, 0;
      cells := new Cell[HEIGHT, WIDTH];
      new;
      hide Shows, Fresh, Bounded, RowsPainted, CursorPainted;
      FreshIsBounded();
      AllThree(Fresh());
      UpdateScreen([Fresh(), Fresh(), Fresh()]);
    }

    lemma AllThree(t: Term)
      requires Separate() && terminals[0].Matches(t) && terminals[1].Matches(t) && terminals[2].Matches(t) && Bounded(t)
      ensures Holds([t, t, t])
    {
    }

    /** Repaints the text rows and the cursor. */
    method UpdateScreen(ghost ts: seq<Term>)
      requires Holds(ts)
      modifies this`cursorX, this`cursorY, this`paints, cells
      ensures Holds(ts) && RowsPainted(ts[current]) && CursorPainted(ts[current]) && StatusKept() && paints == old(paints) + 1
    {
      var term := terminals[current];
      ghost var t := ts[current];
      assert term.Matches(t) && Bounded(t);
      for row := 1 to HEIGHT
        invariant forall r, c :: 1 <= r < row && 0 <= c < WIDTH ==> cells[r, c] == t.grid[t.view + r - 1][c]
        invariant StatusKept()
        invariant term.Matches(t) && paints == old(paints)
      {
        PaintRow(term, row);
      }
      if term.y >= term.view && term.y < term.view + (HEIGHT - 1) {
        cursorX, cursorY := term.x, term.y - term.view + 1;
      } else {
        cursorX, cursorY := WIDTH, HEIGHT;
      }
      paints := paints + 1;
    }

    method PaintRow(term: VirtualTerminal, row: nat)
      requires 1 <= row < HEIGHT && cells.Length0 == HEIGHT && cells.Length1 == WIDTH && term.buffer != cells
      requires term.buffer.Length0 == MAX_SCROLL && term.buffer.Length1 == WIDTH && term.view <= MAX_SCROLL - TERM_ROWS
      modifies cells
      ensures forall r, c :: 0 <= r < HEIGHT && 0 <= c < WIDTH ==>
        cells[r, c] == if r == row then term.buffer[term.view + row - 1, c] else old(cells[r, c])
    {
      for col := 0 to WIDTH
        invariant forall r, c :: 0 <= r < HEIGHT && 0 <= c < WIDTH ==>
          cells[r, c] == if r == row && c < col then term.buffer[term.view + row - 1, c] else old(cells[r, c])
      {
        cells[row, col] := term.buffer[term.view + row - 1, col];
      }
    }

    /** Repaints now, or notes that a repaint is owed. */
    method Refresh(ghost ts: seq<Term>)
      requires Holds(ts) && (owed ==> deferred)
      modifies this`owed, this`cursorX, this`cursorY, this`paints, cells
      ensures Valid(ts) && StatusKept()
      ensures deferred ==> paints == old(paints)
    {
      if deferred {
        owed := true;
        return;
      }
      UpdateScreen(ts);
    }

    /** Moves the cursor, or notes that a repaint is owed. */
    method RefreshCursor(x: nat, y: nat, ghost ts: seq<Term>)
      requires Holds(ts) && (owed ==> deferred) && (owed || RowsPainted(ts[current]))
      requires (x, y) == if InWindow(ts[current]) then (ts[current].x as nat, ts[current].y - ts[current].view + 1) else (WIDTH, HEIGHT)
      modifies this`owed, this`cursorX, this`cursorY
      ensures Valid(ts)
    {
      if deferred {
        owed := true;
        return;
      }
      cursorX, cursorY := x, y;
    }

    lemma HoldsAt(ts: seq<Term>, i: nat)
      requires Holds(ts) && i < NUM_TERMINALS
      ensures Separate() && terminals[i].Matches(ts[i]) && Bounded(ts[i]) && OthersHold(ts, i)
    {
    }

    /** The terminals other than one hold what they should. */
    ghost predicate OthersHold(ts: seq<Term>, i: nat)
      reads terminals, set j | 0 <= j < |terminals| :: terminals[j].buffer
    {
      && |terminals| == NUM_TERMINALS == |ts|
      && forall j :: 0 <= j < NUM_TERMINALS && j != i ==> terminals[j].Matches(ts[j]) && Bounded(ts[j])
    }

    lemma HoldsAgain(ts: seq<Term>, i: nat, t: Term)
      requires i < NUM_TERMINALS && Separate() && OthersHold(ts, i) && terminals[i].Matches(t) && Bounded(t)
      ensures Holds(ts[i := t])
    {
    }

    /** Shows one cell just stored in the buffer, if the window shows its row. */
    method Mirror(y: nat, x: nat, cell: Cell, ghost t: Term)
      requires cells.Length0 == HEIGHT && cells.Length1 == WIDTH && y < MAX_SCROLL && x < WIDTH
      requires t.view <= MAX_SCROLL - TERM_ROWS && current < |terminals| && terminals[current].view == t.view
      modifies cells
      ensures StatusKept()
      ensures old(RowsPainted(t)) ==> RowsPainted(t.(grid := SetCell(t.grid, y, x, cell)))
    {
      var view := terminals[current].view;
      if y >= view && y < view + (HEIGHT - 1) {
        cells[y - view + 1, x] := cell;
      }
    }

    /** Rubs out the cell before the cursor, on the console too if it is in the window. */
    method PutBackspace(i: nat, ghost ts: seq<Term>)
      requires Valid(ts) && i < NUM_TERMINALS
      modifies this`cursorX, this`cursorY, cells, terminals[i], terminals[i].buffer
      ensures Valid(ts[i := Backspace(ts[i])]) && StatusKept()
    {
      hide Holds, Shows, SetCell, RowsPainted;
      HoldsAt(ts, i);
      var term := terminals[i];
      ghost var t := ts[i];
      term.BackspaceAt(t);
      BackspaceKeeps(t);
      if i == current {
        Mirror(term.y, term.x, term.buffer[term.y, term.x], t);
        RowsDependOn(t.(grid := Backspace(t).grid), Backspace(t));
        if term.y >= term.view && term.y < term.view + (HEIGHT - 1) {
          cursorX, cursorY := term.x, term.y - term.view + 1;
        }
      }
      assert OthersHold(ts, i);
      HoldsAgain(ts, i, Backspace(t));
    }

    /** A glyph goes into the buffer, onto the console, and the cursor moves on. */
    method PutGlyph(i: nat, c: Ch, ghost t: Term)
      requires Separate() && i < NUM_TERMINALS && terminals[i].Matches(t) && Bounded(t)
      modifies cells, terminals[i], terminals[i].buffer
      ensures terminals[i].Matches(Print(t, c)) && StatusKept()
      ensures if i == current then old(RowsPainted(t)) ==> RowsPainted(Print(t, c)) else unchanged(cells)
    {
      hide Shows, SetCell, RowsPainted;
      var term := terminals[i];
      term.StoreAt(c, t);
      if i == current {
        Mirror(term.y, term.x, term.buffer[term.y, term.x], t);
      }
      term.Advance(c, t);
      RowsDependOn(t.(grid := Print(t, c).grid), Print(t, c));
    }

    lemma RowsDependOn(t: Term, t': Term)
      requires cells.Length0 == HEIGHT && cells.Length1 == WIDTH && t.view <= MAX_SCROLL - TERM_ROWS
      requires t'.grid == t.grid && t'.view == t.view
      ensures RowsPainted(t) <==> RowsPainted(t')
    {
    }

    /** What a byte of text leaves on the screen. */
    method Show(redraw: bool, ghost ts: seq<Term>)
      requires Holds(ts) && (owed ==> deferred) && (redraw || owed || RowsPainted(ts[current]))
      modifies this`owed, this`cursorX, this`cursorY, this`paints, cells
      ensures Valid(ts) && StatusKept()
      ensures deferred ==> paints == old(paints)
    {
      hide Shows, RowsPainted;
      var term := terminals[current];
      HoldsAt(ts, current);
      if redraw {
        Refresh(ts);
      } else if term.y >= term.view && term.y < term.view + (HEIGHT - 1) {
        RefreshCursor(term.x, term.y - term.view + 1, ts);
      } else {
        RefreshCursor(WIDTH, HEIGHT, ts);
      }
    }

    /** A printable byte or a newline. */
    method PutOther(i: nat, c: Ch, ghost ts: seq<Term>)
      requires Valid(ts) && i < NUM_TERMINALS && c != 8
      modifies this`owed, this`cursorX, this`cursorY, this`paints, cells, terminals[i], terminals[i].buffer
      ensures Valid(ts[i := Text(ts[i], c)]) && StatusKept()
      ensures deferred ==> paints == old(paints)
    {
      hide Holds, Shows, SetCell, RowsPainted, ScrollUp;
      HoldsAt(ts, i);
      var term := terminals[i];
      ghost var t := ts[i];
      ghost var t1 := if c == 10 then NewLine(t) else Print(t, c);
      if c == 10 {
        term.NewLineAt(t);
        RowsDependOn(t, t1);
      } else {
        PutGlyph(i, c, t);
      }
      assert i == current && !owed ==> RowsPainted(t1);
      var redraw := term.Settle(t1);
      TextStaysInside(t, c);
      assert OthersHold(ts, i);
      HoldsAgain(ts, i, Text(t, c));
      if i != current {
        return;
      }
      Show(redraw, ts[i := Text(t, c)]);
    }

    /** A byte of a sequence. */
    method PutInSequence(i: nat, c: Ch, ghost ts: seq<Term>) returns (taken: bool)
      requires Valid(ts) && i < NUM_TERMINALS && !Escapes(ts[i], c) && ts[i].esc != Ground && c != 27
      modifies this`owed, this`cursorX, this`cursorY, this`paints, cells, terminals[i], terminals[i].buffer
      ensures taken <==> c >= 32
      ensures Valid(ts[i := if taken then Put(ts[i], c) else ts[i].(esc := Ground)]) && StatusKept()
      ensures deferred ==> paints == old(paints)
    {
      hide Holds, Shows, RowsPainted, Put;
      HoldsAt(ts, i);
      var term := terminals[i];
      ghost var t := ts[i];
      PutStaysInside(t, c);
      var completed;
      taken, completed := term.EscapeFeed(c, t);
      ghost var t' := if taken then Put(t, c) else t.(esc := Ground);
      assert OthersHold(ts, i);
      HoldsAgain(ts, i, t');
      if completed && i == current {
        Refresh(ts[i := t']);
      } else if i == current {
        RowsDependOn(t, t');
      }
    }

    /** One byte to a terminal, visible or not. */
    method PutCharOn(i: nat, c: Ch, ghost ts: seq<Term>)
      requires Valid(ts) && i < NUM_TERMINALS && !Escapes(ts[i], c)
      modifies this`owed, this`cursorX, this`cursorY, this`paints, cells, terminals[i], terminals[i].buffer
      ensures Valid(ts[i := Put(ts[i], c)]) && StatusKept()
      ensures deferred ==> paints == old(paints)
    {
      hide Holds, Shows, RowsPainted, Text, Dispatch;
      HoldsAt(ts, i);
      var term := terminals[i];
      ghost var ts1 := ts;
      if c == 27 {
        term.esc := Escape;
        assert OthersHold(ts, i);
        HoldsAgain(ts, i, ts[i].(esc := Escape));
        RowsDependOn(ts[i], ts[i].(esc := Escape));
        return;
      }
      if term.esc != Ground {
        var taken := PutInSequence(i, c, ts);
        if taken {
          return;
        }
        ts1 := ts[i := ts[i].(esc := Ground)];
      }
      assert Put(ts[i], c) == Text(ts1[i], c) && ts1[i := Put(ts[i], c)] == ts[i := Put(ts[i], c)];
      if c == 8 {
        PutBackspace(i, ts1);
        assert Text(ts1[i], c) == Backspace(ts1[i]) by {
          BackspaceIsText(ts1[i]);
        }
      } else {
        PutOther(i, c, ts1);
      }
    }

    /**
     * Writing byte by byte, each refreshing the screen at once unless a batch is open. The
     * terminal ends as the bytes make it, and outside a batch the console shows that.
     */
    method WriteTo(i: nat, data: seq<Ch>, ghost ts: seq<Term>)
      requires Valid(ts) && i < NUM_TERMINALS && Inside(ts[i], data)
      modifies this`owed, this`cursorX, this`cursorY, this`paints, cells, terminals[i], terminals[i].buffer
      ensures Valid(ts[i := PutAll(ts[i], data)]) && StatusKept()
      ensures deferred ==> paints == old(paints)
    {
      hide Holds, RowsPainted, Put;
      HoldsAt(ts, i);
      ghost var t := ts[i];
      assert ts[i := t] == ts && data[0..] == data;
      for k := 0 to |data|
        invariant Valid(ts[i := t]) && StatusKept() && (deferred ==> paints == old(paints))
        invariant Inside(t, data[k..]) && PutAll(t, data[k..]) == PutAll(ts[i], data)
      {
        assert data[k..][0] == data[k] && data[k..][1..] == data[k + 1..];
        PutStaysInside(t, data[k]);
        PutCharOn(i, data[k], ts[i := t]);
        assert ts[i := t][i := Put(t, data[k])] == ts[i := Put(t, data[k])];
        t := Put(t, data[k]);
      }
      assert data[|data|..] == [];
    }

    /**
     * Writing a run and refreshing at most once, at the end, however long the run. What the terminal becomes and, outside any
     * other batch, what the console shows, are what writing byte by byte would have left.
     */
    method WriteBatch(data: seq<Ch>, ghost ts: seq<Term>)
      requires Valid(ts) && Inside(ts[current], data)
      modifies this`owed, this`deferred, this`cursorX, this`cursorY, this`paints, cells, terminals[current], terminals[current].buffer
      ensures Valid(ts[current := PutAll(ts[current], data)]) && StatusKept() && deferred == old(deferred)
      ensures paints <= old(paints) + if deferred then 0 else 1
    {
      hide RowsPainted, CursorPainted, PutAll, Inside, Shows, Bounded;
      HoldsAt(ts, current);
      var saved := deferred;
      deferred := true;
      WriteTo(current, data, ts);
      deferred := saved;
      if !deferred && owed {
        owed := false;
        UpdateScreen(ts[current := PutAll(ts[current], data)]);
      }
    }

    /** Brings another terminal to the screen. */
    method SwitchTo(n: nat, ghost ts: seq<Term>)
      requires Valid(ts)
      modifies this`current, this`cursorX, this`cursorY, this`paints, cells
      ensures Valid(ts) && StatusKept() && current == if n < NUM_TERMINALS then n else old(current)
    {
      if n >= NUM_TERMINALS {
        return;
      }
      current := n;
      UpdateScreen(ts);
    }

    /** Looks one row further back. */
    method ScrollBack(ghost ts: seq<Term>)
      requires Valid(ts)
      modifies terminals[current], this`cursorX, this`cursorY, this`paints, cells
      ensures var t := ts[current];
              Valid(ts[current := t.(view := if t.view > 0 then t.view - 1 else 0)])
      ensures StatusKept()
    {
      hide RowsPainted, Shows;
      HoldsAt(ts, current);
      var term := terminals[current];
      if term.view > 0 {
        term.view := term.view - 1;
        assert OthersHold(ts, current);
        HoldsAgain(ts, current, ts[current].(view := ts[current].view - 1));
        UpdateScreen(ts[current := ts[current].(view := ts[current].view - 1)]);
      } else {
        assert ts[current := ts[current].(view := 0)] == ts;
      }
    }

    /** Looks one row further on, no further than the cursor's own window. */
    method ScrollForward(ghost ts: seq<Term>)
      requires Valid(ts)
      modifies terminals[current], this`cursorX, this`cursorY, this`paints, cells
      ensures var t := ts[current];
              Valid(ts[current := t.(view := if t.view < t.y - (TERM_ROWS - 1) then t.view + 1 else t.view)])
      ensures StatusKept()
    {
      hide RowsPainted, Shows;
      HoldsAt(ts, current);
      var term := terminals[current];
      var most: int := term.y - 23;
      if most < 0 {
        most := 0;
      }
      if term.view < most {
        term.view := term.view + 1;
        assert OthersHold(ts, current);
        HoldsAgain(ts, current, ts[current].(view := ts[current].view + 1));
        UpdateScreen(ts[current := ts[current].(view := ts[current].view + 1)]);
      } else {
        assert ts[current := ts[current].(view := ts[current].view)] == ts;
      }
    }
  }

  lemma FreshIsBounded()
    ensures Bounded(Fresh())
  {
  }

  lemma BackspaceIsText(t: Term)
    requires Bounded(t)
    ensures Text(t, 8) == Backspace(t)
  {
  }

  lemma BackspaceKeeps(t: Term)
    requires Bounded(t)
    ensures var r := Backspace(t);
            Bounded(r) && r.view == t.view && r.color == t.color && r == t.(x := r.x, y := r.y, grid := SetCell(t.grid, r.y, r.x, Blank(t.color)))
    ensures Backspace(t).y >= t.view ==> InWindow(Backspace(t)) || (!InWindow(t) && t.y >= t.view)
  {
  }
}
