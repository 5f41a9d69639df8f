/**
 * What a stream of text leaves on a terminal, by arithmetic on positions: where each byte
 * stands, what has scrolled off, and what is rubbed out again.
 */
module TerminalText {
  import opened Common
  import opened Terminal

  // ---- Positions -------------------------------------------------------------------------

  const NEWLINE: Ch := 10
  const BACKSPACE: Ch := 8

  /** Bytes that stand for themselves or end a line. */
  predicate IsText(s: seq<Ch>) { forall k :: 0 <= k < |s| ==> s[k] != BACKSPACE && s[k] != ESC }

  /** How far along its line the cursor is after a text that began `x` along one. */
  function Along(x: nat, s: seq<Ch>): nat {
    if s == [] then x
    else if s[|s| - 1] == NEWLINE then 0
    else Along(x, s[..|s| - 1]) + 1
  }

  /** The rows taken up by the lines the text has ended, each broken every `WIDTH` cells. */
  function Ended(x: nat, s: seq<Ch>): nat {
    if s == [] then 0
    else
      var before := s[..|s| - 1];
      Ended(x, before) + if s[|s| - 1] == NEWLINE then Along(x, before) / WIDTH + 1 else 0
  }

  /** The row the cursor would be on if the buffer had no end, and its column. */
  function RowAfter(t: Term, s: seq<Ch>): nat { t.y + Ended(t.x, s) + Along(t.x, s) / WIDTH }

  function ColumnAfter(t: Term, s: seq<Ch>): (x: nat)
    ensures x < WIDTH
  {
    Along(t.x, s) % WIDTH
  }

  /** The rows that have scrolled off by then. */
  function Scrolled(t: Term, s: seq<Ch>): nat {
    if RowAfter(t, s) < MAX_SCROLL then 0 else RowAfter(t, s) - (MAX_SCROLL - 1)
  }

  /** The byte at `i` is printed at this row and column. */
  predicate StandsAt(t: Term, s: seq<Ch>, i: nat, row: nat, column: nat) {
    i < |s| && s[i] != NEWLINE && RowAfter(t, s[..i]) == row && ColumnAfter(t, s[..i]) == column
  }

  /** A cell of the endless buffer before any text: the terminal's own, and blank rows below them. */
  function Before(t: Term, row: nat, column: nat): Cell
    requires column < WIDTH
  {
    if row < MAX_SCROLL then t.grid[row][column] else Blank(t.color)
  }

  /** And after the text: the last byte printed there, if any was. */
  function After(t: Term, s: seq<Ch>, row: nat, column: nat): Cell
    requires column < WIDTH
  {
    if s == [] then Before(t, row, column)
    else
      var n := |s| - 1;
      if StandsAt(t, s, n, row, column) then Cell(s[n], t.color) else After(t, s[..n], row, column)
  }

  // ---- Bytes stand in reading order -------------------------------------------------------------

  /** Rows and columns counted as one number. */
  function Place(row: nat, column: nat): nat { row * WIDTH + column }

  lemma AlongStep(x: nat, s: seq<Ch>, c: Ch)
    ensures Along(x, s + [c]) == if c == NEWLINE then 0 else Along(x, s) + 1
    ensures Ended(x, s + [c]) == Ended(x, s) + if c == NEWLINE then Along(x, s) / WIDTH + 1 else 0
  {
    assert (s + [c])[..|s|] == s;
  }

  lemma OneAlong(a: nat)
    ensures (a + 1) / WIDTH == a / WIDTH + (if a % WIDTH == WIDTH - 1 then 1 else 0)
    ensures (a + 1) % WIDTH == if a % WIDTH == WIDTH - 1 then 0 else a % WIDTH + 1
  {
  }

  /** Where one more byte leaves the cursor: the next column, or the start of the next row. */
  lemma StepIs(t: Term, s: seq<Ch>, c: Ch)
    ensures var turn := c == NEWLINE || ColumnAfter(t, s) == WIDTH - 1;
            && RowAfter(t, s + [c]) == RowAfter(t, s) + (if turn then 1 else 0)
            && ColumnAfter(t, s + [c]) == if turn then 0 else ColumnAfter(t, s) + 1
  {
    AlongStep(t.x, s, c);
    OneAlong(Along(t.x, s));
    hide Along, Ended;
  }

  lemma LastOf(s: seq<Ch>)
    requires s != []
    ensures s == s[..|s| - 1] + [s[|s| - 1]]
  {
  }

  /** The cursor only ever moves on. */
  lemma {:induction false} MovesOn(t: Term, s: seq<Ch>, i: nat)
    requires i < |s|
    ensures Place(RowAfter(t, s[..i]), ColumnAfter(t, s[..i])) < Place(RowAfter(t, s), ColumnAfter(t, s))
    ensures RowAfter(t, s[..i]) <= RowAfter(t, s)
    decreases |s|
  {
    var n := |s| - 1;
    LastOf(s);
    StepIs(t, s[..n], s[n]);
    hide RowAfter, ColumnAfter;
    if i < n {
      MovesOn(t, s[..n], i);
      assert s[..n][..i] == s[..i];
    }
  }

  /** Every byte printed stands at its own row and column after any text. */
  lemma {:induction false} ByteStands(t: Term, s: seq<Ch>, i: nat)
    requires i < |s| && s[i] != NEWLINE
    ensures After(t, s, RowAfter(t, s[..i]), ColumnAfter(t, s[..i])) == Cell(s[i], t.color)
    decreases |s|
  {
    var n := |s| - 1;
    hide RowAfter, ColumnAfter;
    if i < n {
      assert s[..n][..i] == s[..i];
      MovesOn(t, s[..n], i);
      ByteStands(t, s[..n], i);
    }
  }

  /** And nothing else is changed. */
  lemma {:induction false} OthersStand(t: Term, s: seq<Ch>, row: nat, column: nat)
    requires column < WIDTH && forall i: nat :: !StandsAt(t, s, i, row, column)
    ensures After(t, s, row, column) == Before(t, row, column)
    decreases |s|
  {
    if s != [] {
      var n := |s| - 1;
      hide RowAfter, ColumnAfter;
      forall i: nat
        ensures !StandsAt(t, s[..n], i, row, column)
      {
        assert i < n ==> s[..n][..i] == s[..i];
        assert !StandsAt(t, s, i, row, column);
      }
      OthersStand(t, s[..n], row, column);
    }
  }

  /** Nothing stands beyond the cursor. */
  lemma NothingBelow(t: Term, s: seq<Ch>, row: nat, column: nat)
    requires column < WIDTH && row > RowAfter(t, s)
    ensures After(t, s, row, column) == Before(t, row, column)
  {
    hide RowAfter, ColumnAfter;
    forall i: nat
      ensures !StandsAt(t, s, i, row, column)
    {
      if i < |s| {
        MovesOn(t, s, i);
      }
    }
    OthersStand(t, s, row, column);
  }
  // ---- What is left on the terminal ---------------------------------------------------------------

  function CursorRow(t: Term, s: seq<Ch>): nat { RowAfter(t, s) - Scrolled(t, s) }

  /** The window: moved up to the first byte's row if that is above it, and down as far as the cursor asks. */
  function ViewAfter(t: Term, s: seq<Ch>): int {
    if s == [] then t.view
    else Most(Least(t.view, CursorRow(t, s[..1])), CursorRow(t, s) - (TERM_ROWS - 1))
  }

  ghost predicate GridIs(t: Term, s: seq<Ch>, g: Grid) {
    forall y, x :: 0 <= y < MAX_SCROLL && 0 <= x < WIDTH ==> g[y][x] == After(t, s, y + Scrolled(t, s), x)
  }

  /** The terminal holds the text: the cursor behind it, every byte in its place, the rest as it was. */
  ghost predicate Holds(t: Term, s: seq<Ch>, r: Term) {
    && r == t.(x := ColumnAfter(t, s), y := CursorRow(t, s), view := r.view, grid := r.grid)
    && r.view == ViewAfter(t, s)
    && GridIs(t, s, r.grid)
  }

  /** A byte is printed at the cursor, or nothing is, and the row below may come into view. */
  lemma GridStep(t: Term, s: seq<Ch>, c: Ch, g: Grid, g': Grid)
    requires GridIs(t, s, g) && CursorRow(t, s) < MAX_SCROLL
    requires g' == if c == NEWLINE then g else SetCell(g, CursorRow(t, s), ColumnAfter(t, s), Cell(c, t.color))
    ensures forall y, x :: 0 <= y < MAX_SCROLL && 0 <= x < WIDTH ==> g'[y][x] == After(t, s + [c], y + Scrolled(t, s), x)
  {
    var u := s + [c];
    assert u[..|s|] == s && u[|s|] == c;
    hide RowAfter, ColumnAfter;
    forall y, x | 0 <= y < MAX_SCROLL && 0 <= x < WIDTH
      ensures g'[y][x] == After(t, u, y + Scrolled(t, s), x)
    {
      assert g[y][x] == After(t, s, y + Scrolled(t, s), x);
    }
  }

  /** When the cursor runs off the buffer, every row moves up by one and the last is blank. */
  lemma GridScrolls(t: Term, u: seq<Ch>, k: nat, last: nat, g: Grid)
    requires forall y, x :: 0 <= y < MAX_SCROLL && 0 <= x < WIDTH ==> g[y][x] == After(t, u, y + k, x)
    requires Scrolled(t, u) == k + 1 && last == k + MAX_SCROLL
    requires forall x :: 0 <= x < WIDTH ==> After(t, u, last, x) == Blank(t.color)
    ensures GridIs(t, u, ScrollUp(g, t.color))
  {
    hide RowAfter, After, Scrolled;
    var g' := ScrollUp(g, t.color);
    forall y, x | 0 <= y < MAX_SCROLL && 0 <= x < WIDTH
      ensures g'[y][x] == After(t, u, y + Scrolled(t, u), x)
    {
      if y < MAX_SCROLL - 1 {
        assert g'[y] == g[y + 1];
      } else {
        assert g'[y] == BlankRow(t.color);
      }
    }
  }

  /** The row below the last is blank until something is printed there. */
  lemma BlankBelow(t: Term, s: seq<Ch>, c: Ch, x: nat)
    requires x < WIDTH && RowAfter(t, s) >= MAX_SCROLL - 1
    ensures After(t, s + [c], RowAfter(t, s) + 1, x) == Blank(t.color)
  {
    var u := s + [c];
    assert u[..|s|] == s;
    NothingBelow(t, s, RowAfter(t, s) + 1, x);
  }
  /** One byte of text, in the buffer and out of it. */
  lemma TextGrid(t: Term, s: seq<Ch>, c: Ch, r: Term)
    requires Bounded(r) && Holds(t, s, r) && c != BACKSPACE
    ensures var u, r' := s + [c], Text(r, c);
            r'.x == ColumnAfter(t, u) && r'.y == CursorRow(t, u) && GridIs(t, u, r'.grid)
  {
    var u := s + [c];
    var g := if c == NEWLINE then r.grid else SetCell(r.grid, r.y, r.x, Cell(c, r.color));
    StepIs(t, s, c);
    GridStep(t, s, c, r.grid, g);
    TextIs(r, c, g);
    hide After, RowAfter, ColumnAfter, Text;
    if RowAfter(t, u) >= MAX_SCROLL {
      var k, last := Scrolled(t, s), Scrolled(t, s) + MAX_SCROLL;
      if Scrolled(t, u) == k + 1 {
        forall x | 0 <= x < WIDTH
          ensures After(t, u, last, x) == Blank(t.color)
        {
          BlankBelow(t, s, c, x);
        }
        GridScrolls(t, u, k, last, g);
      }
    }
  }

  /** A byte of text, by whether it ends its row and whether that was the last. */
  lemma TextIs(t: Term, c: Ch, g: Grid)
    requires Bounded(t) && c != BACKSPACE
    requires g == if c == NEWLINE then t.grid else SetCell(t.grid, t.y, t.x, Cell(c, t.color))
    ensures var turn, r := c == NEWLINE || t.x == WIDTH - 1, Text(t, c);
            && r == t.(x := if turn then 0 else t.x + 1, y := r.y, view := r.view, grid := r.grid)
            && (turn && t.y == MAX_SCROLL - 1 ==> r.y == t.y && r.grid == ScrollUp(g, t.color))
            && (!(turn && t.y == MAX_SCROLL - 1) ==> r.y == t.y + (if turn then 1 else 0) && r.grid == g)
            && r.view == Most(Least(t.view, r.y), r.y - (TERM_ROWS - 1))
  {
    hide SetCell, ScrollUp;
  }
  /** The cursor's row never goes back. */
  lemma RowsRise(t: Term, s: seq<Ch>, i: nat)
    requires i <= |s|
    ensures CursorRow(t, s[..i]) <= CursorRow(t, s)
  {
    if i < |s| {
      MovesOn(t, s, i);
    } else {
      assert s[..i] == s;
    }
    hide RowAfter;
  }

  lemma TextHolds(t: Term, s: seq<Ch>, c: Ch, r: Term)
    requires Bounded(r) && Holds(t, s, r) && c != BACKSPACE
    ensures Holds(t, s + [c], Text(r, c))
  {
    var u := s + [c];
    TextGrid(t, s, c, r);
    TextIs(r, c, if c == NEWLINE then r.grid else SetCell(r.grid, r.y, r.x, Cell(c, r.color)));
    hide Text, GridIs, ColumnAfter, CursorRow, SetCell;
    RowsRise(t, u, |s|);
    assert u[..|s|] == s;
    if s == [] {
      assert u[..1] == u;
    } else {
      RowsRise(t, s, 1);
      assert u[..1] == s[..1];
    }
  }

  lemma NothingHeld(t: Term)
    requires Bounded(t)
    ensures Holds(t, [], t)
  {
    assert t.x / WIDTH == 0 && t.x % WIDTH == t.x;
  }

  /**
   * Any text, on any terminal: every printed byte stands where lines broken every 80 cells and
   * started at column 0 put it, counted from the cursor and less the rows scrolled off; every
   * other cell is as it was, rows that scrolled in are blank, and the cursor is behind the text.
   */
  lemma {:induction false} TextStream(t: Term, s: seq<Ch>)
    requires Bounded(t) && t.esc == Ground && IsText(s)
    ensures Inside(t, s) && Holds(t, s, PutAll(t, s))
    decreases |s|
  {
    hide Put, Holds, Bounded, PutAll, Inside;
    if s == [] {
      NothingHeld(t);
      PutNothing(t);
    } else {
      var n := |s| - 1;
      TextStream(t, s[..n]);
      var r := PutAll(t, s[..n]);
      HoldsGround(t, s[..n], r);
      TextStaysInside(r, s[n]);
      PutText(r, s[n]);
      TextHolds(t, s[..n], s[n], r);
      OneByte(r, s[n]);
      PutAllConcat(t, s[..n], [s[n]]);
      LastOf(s);
    }
  }

  lemma HoldsGround(t: Term, s: seq<Ch>, r: Term)
    requires Holds(t, s, r)
    ensures r.esc == t.esc
  {
    hide GridIs;
  }

  lemma PutText(t: Term, c: Ch)
    requires Bounded(t) && t.esc == Ground && c != ESC
    ensures Put(t, c) == Text(t, c)
  {
    hide Text, FeedCsi;
  }

  /** What that means for one byte that has not scrolled off, and for a cell where none stands. */
  lemma WhereBytesStand(t: Term, s: seq<Ch>, y: nat, x: nat)
    requires Bounded(t) && t.esc == Ground && IsText(s) && y < MAX_SCROLL && x < WIDTH
    ensures Inside(t, s)
    ensures var r, row := PutAll(t, s), y + Scrolled(t, s);
            && (forall i: nat :: StandsAt(t, s, i, row, x) ==> r.grid[y][x] == Cell(s[i], t.color))
            && ((forall i: nat :: !StandsAt(t, s, i, row, x)) ==>
                  r.grid[y][x] == if row < MAX_SCROLL then t.grid[row][x] else Blank(t.color))
  {
    hide Put, Holds, RowAfter, ColumnAfter, Scrolled, After, PutAll, Inside;
    TextStream(t, s);
    var row := y + Scrolled(t, s);
    HeldCell(t, s, PutAll(t, s), y, x);
    forall i: nat | StandsAt(t, s, i, row, x)
      ensures After(t, s, row, x) == Cell(s[i], t.color)
    {
      StandingByte(t, s, i, row, x);
    }
    if forall i: nat :: !StandsAt(t, s, i, row, x) {
      OthersStand(t, s, row, x);
    }
  }

  lemma HeldCell(t: Term, s: seq<Ch>, r: Term, y: nat, x: nat)
    requires Holds(t, s, r) && y < MAX_SCROLL && x < WIDTH
    ensures r.grid[y][x] == After(t, s, y + Scrolled(t, s), x)
  {
    hide After, RowAfter, ColumnAfter, Scrolled;
  }

  lemma StandingByte(t: Term, s: seq<Ch>, i: nat, row: nat, column: nat)
    requires StandsAt(t, s, i, row, column) && column < WIDTH
    ensures After(t, s, row, column) == Cell(s[i], t.color)
  {
    hide After, RowAfter, ColumnAfter;
    ByteStands(t, s, i);
  }
  // ---- Rubbing out -------------------------------------------------------------------------------

  function PlaceOf(t: Term): nat { Place(t.y, t.x) }

  /** Of `m` backspaces from place `p`, the ones before it, and the first place if it is there already. */
  predicate RubbedOut(p: nat, m: nat, q: int) { m > 0 && p - m <= q < Most(p, 1) }

  /** The cursor is that many places back, or at the first, and exactly those cells are blank. */
  ghost predicate Rubbed(t: Term, m: nat, r: Term) {
    && r == t.(x := r.x, y := r.y, grid := r.grid) && r.x < WIDTH && r.y < MAX_SCROLL
    && PlaceOf(r) == Most(0, PlaceOf(t) - m)
    && forall y, x :: 0 <= y < MAX_SCROLL && 0 <= x < WIDTH ==>
         r.grid[y][x] == if RubbedOut(PlaceOf(t), m, Place(y, x)) then Blank(t.color) else t.grid[y][x]
  }

  lemma OneCell(y: nat, x: nat, y': nat, x': nat)
    requires x < WIDTH && x' < WIDTH
    ensures Place(y, x) == Place(y', x') <==> y == y' && x == x'
  {
  }

  lemma BackspaceIs(t: Term)
    requires Bounded(t)
    ensures var r := Backspace(t);
            && r == t.(x := r.x, y := r.y, grid := r.grid) && r.x < WIDTH && r.y < MAX_SCROLL
            && PlaceOf(r) == Most(0, PlaceOf(t) - 1)
            && forall y, x :: 0 <= y < MAX_SCROLL && 0 <= x < WIDTH ==>
                 r.grid[y][x] == if Place(y, x) == PlaceOf(r) then Blank(t.color) else t.grid[y][x]
  {
    var r := Backspace(t);
    forall y, x | 0 <= y < MAX_SCROLL && 0 <= x < WIDTH
      ensures r.grid[y][x] == if Place(y, x) == PlaceOf(r) then Blank(t.color) else t.grid[y][x]
    {
      OneCell(y, x, r.y, r.x);
    }
  }

  function Backspaces(m: nat): seq<Ch> { seq(m, _ => BACKSPACE) }

  /** Any number of backspaces, wherever they start. */
  lemma {:induction false} RubOut(t: Term, m: nat)
    requires Bounded(t) && t.esc == Ground
    ensures Inside(t, Backspaces(m)) && Rubbed(t, m, PutAll(t, Backspaces(m)))
  {
    if m == 0 {
      PutNothing(t);
    } else {
      RubOut(t, m - 1);
      var r := PutAll(t, Backspaces(m - 1));
      var r' := Text(r, BACKSPACE);
      assert Backspaces(m) == Backspaces(m - 1) + [BACKSPACE];
      hide PutAll, Inside, Put, Backspaces;
      TextStaysInside(r, BACKSPACE);
      PutText(r, BACKSPACE);
      OneByte(r, BACKSPACE);
      PutAllConcat(t, Backspaces(m - 1), [BACKSPACE]);
      RubbedMore(t, m - 1, r);
    }
  }

  lemma RubbedMore(t: Term, m: nat, r: Term)
    requires Bounded(r) && Rubbed(t, m, r)
    ensures Rubbed(t, m + 1, Text(r, BACKSPACE))
  {
    BackspaceIs(r);
    hide Backspace, Place;
  }
  predicate IsLine(s: seq<Ch>) { IsText(s) && forall k :: 0 <= k < |s| ==> s[k] != NEWLINE }

  lemma {:induction false} AlongLine(x: nat, s: seq<Ch>)
    requires IsLine(s)
    ensures Along(x, s) == x + |s| && Ended(x, s) == 0
  {
    if s != [] {
      AlongLine(x, s[..|s| - 1]);
    }
  }

  lemma LinePlace(t: Term, s: seq<Ch>)
    requires IsLine(s) && t.x < WIDTH
    ensures Place(RowAfter(t, s), ColumnAfter(t, s)) == PlaceOf(t) + |s|
  {
    AlongLine(t.x, s);
    hide Along, Ended;
  }

  /** Typing on one line and rubbing all of it out puts the cursor back and leaves blanks where the text was. */
  lemma TypedThenRubbed(t: Term, s: seq<Ch>)
    requires Bounded(t) && t.esc == Ground && IsLine(s) && Scrolled(t, s) == 0
    ensures Inside(t, s + Backspaces(|s|))
    ensures var r := PutAll(t, s + Backspaces(|s|));
            && r.x == t.x && r.y == t.y
            && forall y, x :: 0 <= y < MAX_SCROLL && 0 <= x < WIDTH ==>
                 r.grid[y][x] == if PlaceOf(t) <= Place(y, x) < PlaceOf(t) + |s| then Blank(t.color) else t.grid[y][x]
  {
    hide Put, PutAll, Inside, Backspaces, Rubbed, Holds;
    TextStream(t, s);
    var m := PutAll(t, s);
    HoldsGround(t, s, m);
    RubOut(m, |s|);
    PutAllConcat(t, s, Backspaces(|s|));
    RubbedAfter(t, s, m, PutAll(m, Backspaces(|s|)));
  }

  lemma RubbedAfter(t: Term, s: seq<Ch>, m: Term, r: Term)
    requires Bounded(t) && IsLine(s) && Scrolled(t, s) == 0 && Holds(t, s, m) && Rubbed(m, |s|, r)
    ensures r.x == t.x && r.y == t.y
    ensures forall y, x :: 0 <= y < MAX_SCROLL && 0 <= x < WIDTH ==>
              r.grid[y][x] == if PlaceOf(t) <= Place(y, x) < PlaceOf(t) + |s| then Blank(t.color) else t.grid[y][x]
  {
    LinePlace(t, s);
    OneCell(r.y, r.x, t.y, t.x);
    hide RowAfter, ColumnAfter, Place, After;
    forall y, x | 0 <= y < MAX_SCROLL && 0 <= x < WIDTH
      ensures r.grid[y][x] == if PlaceOf(t) <= Place(y, x) < PlaceOf(t) + |s| then Blank(t.color) else t.grid[y][x]
    {
      RubbedRange(PlaceOf(t), |s|, Place(y, x));
      assert m.grid[y][x] == After(t, s, y, x);
      if !(PlaceOf(t) <= Place(y, x) < PlaceOf(t) + |s|) {
        RubbedCell(t, s, y, x);
      }
    }
  }

  lemma RubbedRange(p: nat, n: nat, q: nat)
    ensures RubbedOut(p + n, n, q) <==> p <= q < p + n
  {
  }

  /** Outside the places of the text nothing was printed. */
  lemma RubbedCell(t: Term, s: seq<Ch>, y: nat, x: nat)
    requires IsLine(s) && t.x < WIDTH && y < MAX_SCROLL && x < WIDTH
    requires !(PlaceOf(t) <= Place(y, x) < PlaceOf(t) + |s|)
    ensures After(t, s, y, x) == t.grid[y][x]
  {
    hide RowAfter, ColumnAfter, Place;
    forall i: nat
      ensures !StandsAt(t, s, i, y, x)
    {
      if i < |s| {
        LinePlace(t, s[..i]);
      }
    }
    OthersStand(t, s, y, x);
  }

  // ---- Saving and restoring ----------------------------------------------------------------------

  const SAVE: seq<Ch> := [ESC, OPEN, 's' as int]
  const RESTORE: seq<Ch> := [ESC, OPEN, 'u' as int]

  lemma Saves(t: Term)
    requires Bounded(t)
    ensures Inside(t, SAVE)
    ensures PutAll(t, SAVE) == t.(esc := Ground, count := 0, params := t.params[0 := 0], savedX := t.x, savedY := t.y)
  {
    NoParameter(t, 's' as int);
  }

  lemma Restores(t: Term)
    requires Bounded(t)
    ensures Inside(t, RESTORE)
    ensures PutAll(t, RESTORE) == t.(esc := Ground, count := 0, params := t.params[0 := 0], x := t.savedX, y := t.savedY)
  {
    NoParameter(t, 'u' as int);
  }

  /** A sequence of an introducer and a final byte. */
  lemma NoParameter(t: Term, c: Ch)
    requires Bounded(t) && (c == 's' as int || c == 'u' as int)
    ensures var t1 := t.(esc := Csi, count := 0, params := t.params[0 := 0]);
            && Bounded(t1) && Inside(t, [ESC, OPEN, c]) && PutAll(t, [ESC, OPEN, c]) == Dispatch(t1, c).(esc := Ground)
            && Dispatch(t1, c) == if c == 's' as int then t1.(savedX := t.x, savedY := t.y) else t1.(x := t.savedX, y := t.savedY)
  {
    var t1 := t.(esc := Csi, count := 0, params := t.params[0 := 0]);
    Introducer(t);
    SavedByte(t1, c);
    FinalByte(t1, c);
    hide Put, Dispatch, PutAll, Inside;
    OneByte(t1, c);
    PutAllConcat(t, [ESC, OPEN], [c]);
    assert [ESC, OPEN] + [c] == [ESC, OPEN, c];
  }

  lemma SavedByte(t: Term, c: Ch)
    requires Bounded(t) && (c == 's' as int || c == 'u' as int)
    ensures Dispatch(t, c) == if c == 's' as int then t.(savedX := t.x, savedY := t.y) else t.(x := t.savedX, y := t.savedY)
  {
    hide InsertLines, DeleteLines, EraseScreen, EraseLine, SgrColor, SetRegion, CursorUp, CursorDown, CursorRight;
  }

  /** Whatever text comes between, restoring brings the cursor back to where it was saved. */
  lemma SavedCursorReturns(t: Term, s: seq<Ch>)
    requires Bounded(t) && IsText(s)
    ensures Inside(t, SAVE + s + RESTORE)
    ensures var r := PutAll(t, SAVE + s + RESTORE); r.x == t.x && r.y == t.y && r.esc == Ground
    ensures var saved := t.(esc := Ground); GridIs(saved, s, PutAll(t, SAVE + s + RESTORE).grid)
  {
    hide Put, PutAll, Inside, Along, Ended;
    Saves(t);
    var a := PutAll(t, SAVE);
    TextStream(a, s);
    var b := PutAll(a, s);
    PutAllConcat(t, SAVE, s);
    Restores(b);
    PutAllConcat(t, SAVE + s, RESTORE);
    SameText(a, t.(esc := Ground), s, b.grid);
  }

  /** Text depends on the cursor, the colour and the cells alone. */
  lemma SameText(a: Term, b: Term, s: seq<Ch>, g: Grid)
    requires a.x == b.x && a.y == b.y && a.color == b.color && a.grid == b.grid && GridIs(a, s, g)
    ensures GridIs(b, s, g)
  {
    hide Along, Ended, After;
    forall y, x | 0 <= y < MAX_SCROLL && 0 <= x < WIDTH
      ensures g[y][x] == After(b, s, y + Scrolled(b, s), x)
    {
      SameAfter(a, b, s, y + Scrolled(b, s), x);
    }
  }

  lemma {:induction false} SameAfter(a: Term, b: Term, s: seq<Ch>, row: nat, x: nat)
    requires a.x == b.x && a.y == b.y && a.color == b.color && a.grid == b.grid && x < WIDTH
    ensures After(a, s, row, x) == After(b, s, row, x)
  {
    hide Along, Ended;
    if s != [] {
      SameAfter(a, b, s[..|s| - 1], row, x);
    }
  }

  // ---- Colours ----------------------------------------------------------------------------------------

  /** Which of the beams of the palette are on, and whether they are bright. */
  datatype Beams = Beams(red: bool, green: bool, blue: bool, bright: bool)

  function BeamsOf(c: bv8): Beams { Beams(c & 4 == 4, c & 2 == 2, c & 1 == 1, c & 8 == 8) }

  datatype Shade = Shade(ink: Beams, paper: Beams)

  /** A colour is a byte: the ink in its low half, the paper in its high half. */
  function ShadeOf(color: bv8): Shade {
    Shade(Beams(color & 4 == 4, color & 2 == 2, color & 1 == 1, color & 8 == 8),
          Beams(color & 0x40 == 0x40, color & 0x20 == 0x20, color & 0x10 == 0x10, color & 0x80 == 0x80))
  }

  lemma HalvesAre(color: bv8)
    ensures ShadeOf(color) == Shade(BeamsOf(Foreground(color)), BeamsOf(Background(color)))
  {
  }

  /** The eight colour numbers count red, green and blue. */
  function Numbered(n: nat, bright: bool): Beams { Beams(n % 2 == 1, n / 2 % 2 == 1, n / 4 % 2 == 1, bright) }

  /** What a colour parameter asks for. */
  function Asked(s: Shade, n: U32): Shade {
    if n == 0 then Shade(Beams(true, true, true, false), Beams(false, false, false, false))
    else if n == 1 then s.(ink := s.ink.(bright := true))
    else if n == 22 then s.(ink := s.ink.(bright := false))
    else if 30 <= n <= 37 then s.(ink := Numbered(n - 30, s.ink.bright))
    else if 40 <= n <= 47 then s.(paper := Numbered(n - 40, false))
    else if 90 <= n <= 97 then s.(ink := Numbered(n - 90, true))
    else s
  }

  function AskedAll(s: Shade, ns: seq<U32>): Shade {
    if ns == [] then s else Asked(AskedAll(s, ns[..|ns| - 1]), ns[|ns| - 1])
  }

  /** A half of a colour. */
  predicate Nibble(c: bv8) { c < 16 }

  lemma PaletteIs(n: nat)
    requires n < 8
    ensures var c := ANSI_TO_VGA[n];
            && c < 8 && BeamsOf(c) == Numbered(n, false) && BeamsOf(c | 8) == Numbered(n, true)
            && Numbered(n, true) == Numbered(n, false).(bright := true) && forall b :: Numbered(n, b) == Numbered(n, false).(bright := b)
  {
  }

  lemma Inked(fg: bv8, c: bv8)
    requires Nibble(fg) && c < 8
    ensures Nibble((fg & 8) | c) && BeamsOf((fg & 8) | c) == BeamsOf(c).(bright := BeamsOf(fg).bright) && Nibble(c | 8)
  {
  }

  lemma Brightened(fg: bv8)
    requires Nibble(fg)
    ensures Nibble(fg | 8) && BeamsOf(fg | 8) == BeamsOf(fg).(bright := true)
    ensures Nibble(fg & 0xF7) && BeamsOf(fg & 0xF7) == BeamsOf(fg).(bright := false)
  {
  }

  /** One parameter does what it asks for. */
  lemma SgrParamIs(fg: bv8, bg: bv8, n: U32)
    requires Nibble(fg) && Nibble(bg)
    ensures var (f, b) := SgrParam(fg, bg, n);
            Nibble(f) && Nibble(b) && Shade(BeamsOf(f), BeamsOf(b)) == Asked(Shade(BeamsOf(fg), BeamsOf(bg)), n)
  {
    hide SgrParam, Asked, BeamsOf, Nibble;
    if n < 30 {
      SgrOther(fg, bg, n);
    } else if n <= 37 {
      SgrInk(fg, bg, n);
    } else if 40 <= n <= 47 {
      SgrPaper(fg, bg, n);
    } else if 90 <= n <= 97 {
      SgrBright(fg, bg, n);
    } else {
      SgrNone(fg, bg, n);
    }
  }

  lemma SgrInk(fg: bv8, bg: bv8, n: U32)
    requires Nibble(fg) && Nibble(bg) && 30 <= n <= 37
    ensures var (f, b) := SgrParam(fg, bg, n);
            Nibble(f) && Nibble(b) && Shade(BeamsOf(f), BeamsOf(b)) == Asked(Shade(BeamsOf(fg), BeamsOf(bg)), n)
  {
    hide BeamsOf, Numbered, Nibble;
    PaletteIs(n - 30);
    Inked(fg, ANSI_TO_VGA[n - 30]);
  }

  lemma SgrPaper(fg: bv8, bg: bv8, n: U32)
    requires Nibble(fg) && Nibble(bg) && 40 <= n <= 47
    ensures var (f, b) := SgrParam(fg, bg, n);
            Nibble(f) && Nibble(b) && Shade(BeamsOf(f), BeamsOf(b)) == Asked(Shade(BeamsOf(fg), BeamsOf(bg)), n)
  {
    hide BeamsOf, Numbered;
    PaletteIs(n - 40);
  }

  lemma SgrBright(fg: bv8, bg: bv8, n: U32)
    requires Nibble(fg) && Nibble(bg) && 90 <= n <= 97
    ensures var (f, b) := SgrParam(fg, bg, n);
            Nibble(f) && Nibble(b) && Shade(BeamsOf(f), BeamsOf(b)) == Asked(Shade(BeamsOf(fg), BeamsOf(bg)), n)
  {
    hide BeamsOf, Numbered, Nibble;
    PaletteIs(n - 90);
    Inked(fg, ANSI_TO_VGA[n - 90]);
  }

  lemma SgrNone(fg: bv8, bg: bv8, n: U32)
    requires Nibble(fg) && Nibble(bg) && (37 < n < 40 || 47 < n < 90 || 97 < n)
    ensures SgrParam(fg, bg, n) == (fg, bg) && Asked(Shade(BeamsOf(fg), BeamsOf(bg)), n) == Shade(BeamsOf(fg), BeamsOf(bg))
  {
    hide BeamsOf, Nibble;
  }

  lemma SgrOther(fg: bv8, bg: bv8, n: U32)
    requires Nibble(fg) && Nibble(bg) && n < 30
    ensures var (f, b) := SgrParam(fg, bg, n);
            Nibble(f) && Nibble(b) && Shade(BeamsOf(f), BeamsOf(b)) == Asked(Shade(BeamsOf(fg), BeamsOf(bg)), n)
  {
    hide BeamsOf, Numbered;
    Brightened(fg);
    DefaultBeams();
  }

  lemma DefaultBeams()
    ensures BeamsOf(7) == Beams(true, true, true, false) && BeamsOf(0) == Beams(false, false, false, false) && Nibble(7) && Nibble(0)
  {
  }

  lemma {:induction false} SgrIs(fg: bv8, bg: bv8, ns: seq<U32>)
    requires Nibble(fg) && Nibble(bg)
    ensures var (f, b) := Sgr(fg, bg, ns);
            Nibble(f) && Nibble(b) && Shade(BeamsOf(f), BeamsOf(b)) == AskedAll(Shade(BeamsOf(fg), BeamsOf(bg)), ns)
  {
    hide BeamsOf, SgrParam, Asked;
    if ns != [] {
      SgrIs(fg, bg, ns[..|ns| - 1]);
      var (f, b) := Sgr(fg, bg, ns[..|ns| - 1]);
      SgrParamIs(f, b, ns[|ns| - 1]);
    }
  }

  lemma Packed(fg: bv8, bg: bv8)
    requires Nibble(fg) && Nibble(bg)
    ensures Foreground(Color(fg, bg)) == fg && Background(Color(fg, bg)) == bg
  {
  }

  lemma Unpacked(color: bv8)
    ensures Nibble(Foreground(color)) && Nibble(Background(color))
  {
  }

  /** A colour sequence turns the ink and the paper into what its parameters, in order, ask for; with none it is a zero. */
  lemma ColoursAsAsked(t: Term)
    requires Bounded(t)
    ensures ShadeOf(SgrColor(t)) == AskedAll(ShadeOf(t.color), t.params[..if t.count == 0 then 1 else t.count])
    ensures Dispatch(t, 'm' as int) == t.(color := SgrColor(t))
  {
    var ns := t.params[..if t.count == 0 then 1 else t.count];
    var fg, bg := Foreground(t.color), Background(t.color);
    var (f, b) := Sgr(fg, bg, ns);
    hide InsertLines, DeleteLines, EraseScreen, EraseLine, SetRegion, CursorUp, CursorDown, CursorRight, BeamsOf, Foreground, Background;
    hide Color, Sgr, AskedAll;
    hide ShadeOf;
    Unpacked(t.color);
    SgrIs(fg, bg, ns);
    Packed(f, b);
    HalvesAre(t.color);
    HalvesAre(Color(f, b));
  }

  // ---- Lists of parameters --------------------------------------------------------------------------------

  predicate AllSpelt(ps: seq<seq<Ch>>) { forall i :: 0 <= i < |ps| ==> AllDigits(ps[i]) }

  /** Parameters as they are written, with separators between them; any may be left empty. */
  function Written(ps: seq<seq<Ch>>): seq<Ch> {
    if ps == [] then []
    else if |ps| == 1 then ps[0]
    else Written(ps[..|ps| - 1]) + [SEP] + ps[|ps| - 1]
  }

  /** The parameters there is room for: the first eight, the digits of any more running on in the last of them. */
  function Slots(ps: seq<seq<Ch>>): (slots: seq<seq<Ch>>)
    ensures |slots| == if |ps| < MAX_PARAMS then |ps| else MAX_PARAMS
  {
    if |ps| <= MAX_PARAMS then ps
    else
      var slots := Slots(ps[..|ps| - 1]);
      slots[MAX_PARAMS - 1 := slots[MAX_PARAMS - 1] + ps[|ps| - 1]]
  }

  lemma {:induction false} SlotsAreSpelt(ps: seq<seq<Ch>>)
    requires AllSpelt(ps)
    ensures AllSpelt(Slots(ps))
  {
    if |ps| > MAX_PARAMS {
      SlotsAreSpelt(ps[..|ps| - 1]);
    }
  }

  /** The slots read: a number each, zero where one is empty, and the ones beyond as they were. */
  ghost predicate ReadAs(t: Term, slots: seq<seq<Ch>>, r: Term)
    requires AllSpelt(slots)
  {
    && r == t.(count := if slots == [[]] then 0 else |slots|, params := r.params) && |r.params| == MAX_PARAMS == |t.params|
    && (forall i :: 0 <= i < |slots| && i < MAX_PARAMS ==> r.params[i] == Number(slots[i]) % TWO32)
    && (forall i :: |slots| <= i < MAX_PARAMS ==> r.params[i] == t.params[i])
  }

  /** One more parameter. */
  lemma NextParameter(t: Term, r: Term, slots: seq<seq<Ch>>, p: seq<Ch>)
    requires Bounded(t) && Bounded(r) && t.esc == Csi && 1 <= |slots| < MAX_PARAMS && AllSpelt(slots) && AllDigits(p) && ReadAs(t, slots, r)
    ensures AllSpelt(slots + [p]) && Inside(r, [SEP] + p) && ReadAs(t, slots + [p], PutAll(r, [SEP] + p))
  {
    hide Put, PutAll, Inside, Number;
    SeparatorIs(r);
    var u := Put(r, SEP);
    EmptyIsZero();
    DigitsCollect(u, [], p);
    assert [] + p == p;
    assert ([SEP] + p)[1..] == p;
    PutFirst(r, [SEP] + p);
  }

  /** One there is no room for. */
  lemma RunsOn(t: Term, r: Term, slots: seq<seq<Ch>>, p: seq<Ch>)
    requires Bounded(t) && Bounded(r) && t.esc == Csi && |slots| == MAX_PARAMS && AllSpelt(slots) && AllDigits(p) && ReadAs(t, slots, r)
    ensures var more := slots[MAX_PARAMS - 1 := slots[MAX_PARAMS - 1] + p];
            AllSpelt(more) && Inside(r, [SEP] + p) && ReadAs(t, more, PutAll(r, [SEP] + p))
  {
    hide Put, PutAll, Inside, Number;
    SeparatorIs(r);
    assert Put(r, SEP) == r;
    DigitsCollect(r, slots[MAX_PARAMS - 1], p);
    assert ([SEP] + p)[1..] == p;
    PutFirst(r, [SEP] + p);
  }

  /** Any parameters, however they are spelt and whichever are left empty, are read as the numbers in their slots. */
  lemma {:induction false} ParametersAre(t: Term, ps: seq<seq<Ch>>)
    requires Bounded(t) && t.esc == Csi && t.count == 0 && t.params[0] == 0 && ps != [] && AllSpelt(ps)
    ensures AllSpelt(Slots(ps)) && Inside(t, Written(ps)) && ReadAs(t, Slots(ps), PutAll(t, Written(ps)))
  {
    hide Put, PutAll, Inside, Number;
    SlotsAreSpelt(ps);
    if |ps| == 1 {
      EmptyIsZero();
      if ps[0] == [] {
        PutNothing(t);
      } else {
        FirstParameter(t, ps[0]);
      }
    } else {
      var n := |ps| - 1;
      var before := ps[..n];
      ParametersAre(t, before);
      var r := PutAll(t, Written(before));
      if n < MAX_PARAMS {
        assert before + [ps[n]] == ps;
        NextParameter(t, r, before, ps[n]);
      } else {
        RunsOn(t, r, Slots(before), ps[n]);
      }
      PutAllConcat(t, Written(before), [SEP] + ps[n]);
      assert Written(before) + ([SEP] + ps[n]) == Written(ps);
    }
  }

  /** The number in a slot, and zero in one that was not reached. */
  function Parameter(ps: seq<seq<Ch>>, i: nat): U32
    requires AllSpelt(Slots(ps))
  {
    if i < |Slots(ps)| then Number(Slots(ps)[i]) % TWO32 else 0
  }

  /** The start of a sequence, whatever the terminal was in the middle of. */
  lemma Opened(t: Term, ps: seq<seq<Ch>>) returns (r: Term)
    requires Bounded(t) && ps != [] && AllSpelt(ps)
    ensures AllSpelt(Slots(ps)) && Inside(t, [ESC, OPEN] + Written(ps)) && r == PutAll(t, [ESC, OPEN] + Written(ps)) && Bounded(r)
    ensures r == t.(esc := Csi, count := if Slots(ps) == [[]] then 0 else |Slots(ps)|, params := r.params)
    ensures P0(r) == Parameter(ps, 0) && P1(r) == Parameter(ps, 1)
    ensures r.params[..if r.count == 0 then 1 else r.count] == seq(|Slots(ps)|, i requires 0 <= i < |Slots(ps)| => Parameter(ps, i))
  {
    hide Put, PutAll, Inside, Number, Slots, Written;
    Introducer(t);
    var u := PutAll(t, [ESC, OPEN]);
    ParametersAre(u, ps);
    PutAllConcat(t, [ESC, OPEN], Written(ps));
    r := PutAll(t, [ESC, OPEN] + Written(ps));
    EmptyIsZero();
  }

  /**
   * A colour sequence, on any terminal and with any parameters: the ink and the paper are what the
   * parameters, in order, ask for, and nothing else changes.
   */
  lemma ColourSequence(t: Term, ps: seq<seq<Ch>>)
    requires Bounded(t) && ps != [] && AllSpelt(ps)
    ensures AllSpelt(Slots(ps)) && Inside(t, [ESC, OPEN] + Written(ps) + ['m' as int])
    ensures var r := PutAll(t, [ESC, OPEN] + Written(ps) + ['m' as int]);
            && ShadeOf(r.color) == AskedAll(ShadeOf(t.color), seq(|Slots(ps)|, i requires 0 <= i < |Slots(ps)| => Parameter(ps, i)))
            && r == t.(esc := Ground, count := r.count, params := r.params, color := r.color)
  {
    hide Put, PutAll, Inside, Number, Slots, Written, Dispatch, ShadeOf, AskedAll, SgrColor, Parameter, P0, P1;
    var u := Opened(t, ps);
    ColoursAsAsked(u);
    FinalByte(u, 'm' as int);
    OneByte(u, 'm' as int);
    PutAllConcat(t, [ESC, OPEN] + Written(ps), ['m' as int]);
  }

  /** Positioning, on any terminal and with any parameters: the nearest row and column of the screen, and nothing else changes. */
  lemma PositionSequence(t: Term, ps: seq<seq<Ch>>, c: Ch)
    requires Bounded(t) && ps != [] && AllSpelt(ps) && (c == 'H' as int || c == 'f' as int)
    ensures AllSpelt(Slots(ps)) && Inside(t, [ESC, OPEN] + Written(ps) + [c])
    ensures var r, row, column := PutAll(t, [ESC, OPEN] + Written(ps) + [c]), Parameter(ps, 0), Parameter(ps, 1);
            && r.y == t.view + Least(Most(1, row), TERM_ROWS) - 1 && r.x == Least(Most(1, column), WIDTH) - 1
            && r == t.(esc := Ground, count := r.count, params := r.params, y := r.y, x := r.x)
  {
    hide Put, PutAll, Inside, Number, Slots, Written, Dispatch, Parameter, P0, P1;
    var u := Opened(t, ps);
    PositionByte(u, c);
    FinalByte(u, c);
    OneByte(u, c);
    PutAllConcat(t, [ESC, OPEN] + Written(ps), [c]);
  }

  lemma PositionByte(t: Term, c: Ch)
    requires Bounded(t) && (c == 'H' as int || c == 'f' as int)
    ensures Bounded(Dispatch(t, c))
    ensures Dispatch(t, c) == t.(y := t.view + Least(Most(1, P0(t)), TERM_ROWS) - 1, x := Least(Most(1, P1(t)), WIDTH) - 1)
  {
    hide InsertLines, DeleteLines, EraseScreen, EraseLine, SgrColor, CursorUp, CursorDown, CursorRight, SetRegion;
  }

  // ---- The scroll region ------------------------------------------------------------------------------

  /**
   * Setting the region, on any terminal and with any parameters: a last row that is not on the
   * screen stands for its last, the region is the rows asked for if there are two or more of them,
   * and else the whole screen; the cursor goes to the start of its first row and nothing drawn
   * changes.
   */
  lemma RegionGoesThere(t: Term, ps: seq<seq<Ch>>)
    requires Bounded(t) && ps != [] && AllSpelt(ps)
    ensures AllSpelt(Slots(ps)) && Inside(t, [ESC, OPEN] + Written(ps) + ['r' as int])
    ensures var r, first, last := PutAll(t, [ESC, OPEN] + Written(ps) + ['r' as int]), Parameter(ps, 0), Parameter(ps, 1);
            var a, b := Most(1, first), if 1 <= last <= TERM_ROWS then last else TERM_ROWS;
            && r.top == (if a < b then a else 1) && r.bottom == (if a < b then b else TERM_ROWS)
            && r == t.(esc := Ground, count := r.count, params := r.params, top := r.top, bottom := r.bottom, y := t.view + r.top - 1, x := 0)
  {
    hide Put, PutAll, Inside, Number, Slots, Written, Dispatch, SetRegion, Parameter, P0, P1;
    var u := Opened(t, ps);
    RegionByte(u, 'r' as int);
    FinalByte(u, 'r' as int);
    RegionSet(u, P0(u), P1(u));
    OneByte(u, 'r' as int);
    PutAllConcat(t, [ESC, OPEN] + Written(ps), ['r' as int]);
  }

  lemma RegionSet(t: Term, first: U32, last: U32)
    requires Bounded(t)
    ensures var r, a, b := SetRegion(t, first, last), Most(1, first), if 1 <= last <= TERM_ROWS then last else TERM_ROWS;
            && r.top == (if a < b then a else 1) && r.bottom == (if a < b then b else TERM_ROWS)
            && r == t.(top := r.top, bottom := r.bottom, y := t.view + r.top - 1, x := 0)
  {
  }

  lemma RegionByte(t: Term, c: Ch)
    requires Bounded(t) && c == 'r' as int
    ensures Dispatch(t, c) == SetRegion(t, P0(t), P1(t)) && Bounded(SetRegion(t, P0(t), P1(t)))
  {
    hide InsertLines, DeleteLines, EraseScreen, EraseLine, SgrColor, CursorUp, CursorDown, CursorRight;
  }
}
