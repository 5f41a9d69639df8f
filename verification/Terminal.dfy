/**
 * The terminal of drivers/tty.c: a scrollback buffer, a window onto it, and the escape
 * sequences that move, erase, colour and scroll. One byte at a time, as a function.
 */
module Terminal {
  import opened Common

  const WIDTH := 80
  const HEIGHT := 25
  const MAX_SCROLL := 100
  /** Rows of text on the screen, which has a status bar above them. */
  const TERM_ROWS := 24
  const MAX_PARAMS := 8

  // ---- Cells and rows --------------------------------------------------------------------

  type Ch = c: int | 0 <= c < 256

  datatype Cell = Cell(ch: Ch, color: bv8)

  type Row = r: seq<Cell> | |r| == WIDTH witness seq(WIDTH, x => Cell(32, 7))

  type Grid = g: seq<Row> | |g| == MAX_SCROLL witness seq(MAX_SCROLL, y => seq(WIDTH, x => Cell(32, 7)))

  function Blank(color: bv8): Cell { Cell(32, color) }

  function BlankRow(color: bv8): Row { seq(WIDTH, x => Blank(color)) }

  function BlankGrid(color: bv8): Grid { seq(MAX_SCROLL, y => BlankRow(color)) }

  function SetCell(g: Grid, y: nat, x: nat, c: Cell): Grid
    requires y < MAX_SCROLL && x < WIDTH
  {
    g[y := g[y][x := c]]
  }

  /** A position within a span that runs, row after row, from one position to another, inclusive. */
  predicate InSpan(y: int, x: int, fromY: int, fromX: int, toY: int, toX: int) {
    fromY <= y <= toY && (y == fromY ==> fromX <= x) && (y == toY ==> x <= toX)
  }

  function ClearSpan(g: Grid, fromY: nat, fromX: nat, toY: nat, toX: nat, color: bv8): Grid {
    seq(MAX_SCROLL, y requires 0 <= y < MAX_SCROLL =>
      seq(WIDTH, x requires 0 <= x < WIDTH => if InSpan(y, x, fromY, fromX, toY, toX) then Blank(color) else g[y][x]))
  }

  /** Rows `top` to `bot` move down by `n`, blank rows opening above them. */
  function OpenRows(g: Grid, top: nat, bot: nat, n: nat, color: bv8): Grid {
    seq(MAX_SCROLL, y requires 0 <= y < MAX_SCROLL => OpenedRow(g, y, top, bot, n, color))
  }

  function OpenedRow(g: Grid, y: nat, top: nat, bot: nat, n: nat, color: bv8): Row
    requires y < MAX_SCROLL
  {
    if top + n <= y <= bot then g[y - n] else if top <= y <= bot then BlankRow(color) else g[y]
  }

  /** Rows `top` to `bot` move up by `n`, blank rows closing in below them. */
  function CloseRows(g: Grid, top: nat, bot: nat, n: nat, color: bv8): Grid
    requires bot < MAX_SCROLL
  {
    seq(MAX_SCROLL, y requires 0 <= y < MAX_SCROLL => ClosedRow(g, y, top, bot, n, color))
  }

  function ClosedRow(g: Grid, y: nat, top: nat, bot: nat, n: nat, color: bv8): Row
    requires y < MAX_SCROLL && bot < MAX_SCROLL
  {
    if top <= y && y + n <= bot then g[y + n] else if top <= y <= bot then BlankRow(color) else g[y]
  }

  function ScrollUp(g: Grid, color: bv8): Grid { g[1..] + [BlankRow(color)] }

  // ---- A terminal --------------------------------------------------------------------------

  datatype Esc = Ground | Escape | Csi

  datatype Term = Term(
    x: U32, y: U32, view: nat, color: bv8,
    esc: Esc, params: seq<U32>, count: nat,
    savedX: U32, savedY: U32, top: U32, bottom: U32, grid: Grid)

  /** What keeps every access of the buffer inside it. */
  predicate Bounded(t: Term) {
    && t.x < WIDTH && t.y < MAX_SCROLL && t.savedX < WIDTH && t.savedY < MAX_SCROLL
    && t.view <= MAX_SCROLL - TERM_ROWS
    && 1 <= t.top < t.bottom <= TERM_ROWS
    && |t.params| == MAX_PARAMS && t.count <= MAX_PARAMS
  }

  const NO_PARAMS: seq<U32> := [0, 0, 0, 0, 0, 0, 0, 0]

  function Fresh(): Term { Term(0, 0, 0, 7, Ground, NO_PARAMS, 0, 0, 0, 1, TERM_ROWS, BlankGrid(7)) }

  /** The buffer row of a screen row, counted from one. */
  function RowToBuffer(t: Term, row: U32): nat {
    t.view + (if row < 1 then 1 else if row > TERM_ROWS then TERM_ROWS else row) - 1
  }

  /** The cursor is on one of the rows the screen shows. */
  predicate InWindow(t: Term) { t.view <= t.y < t.view + TERM_ROWS }

  // ---- Control sequences ---------------------------------------------------------------------

  function P0(t: Term): U32
    requires |t.params| == MAX_PARAMS
  {
    if t.count > 0 then t.params[0] else 0
  }

  function P1(t: Term): U32
    requires |t.params| == MAX_PARAMS
  {
    if t.count > 1 then t.params[1] else 0
  }

  function OrOne(p: U32): U32 { if p == 0 then 1 else p }

  /** How many rows a line insertion or deletion moves by, or none outside the scroll region. */
  function RowsToMove(t: Term, n: U32): nat {
    var bot := RowToBuffer(t, t.bottom);
    if t.y < RowToBuffer(t, t.top) || t.y > bot then 0
    else if OrOne(n) > bot - t.y + 1 then bot - t.y + 1
    else OrOne(n)
  }

  function InsertLines(t: Term, n: U32): Term {
    t.(grid := if RowsToMove(t, n) == 0 then t.grid
               else OpenRows(t.grid, t.y, RowToBuffer(t, t.bottom), RowsToMove(t, n), t.color))
  }

  function DeleteLines(t: Term, n: U32): Term
    requires Bounded(t)
  {
    t.(grid := if RowsToMove(t, n) == 0 then t.grid
               else CloseRows(t.grid, t.y, RowToBuffer(t, t.bottom), RowsToMove(t, n), t.color))
  }

  /** ANSI colour numbers in the order of the VGA palette. */
  const ANSI_TO_VGA: seq<bv8> := [0, 4, 2, 6, 1, 5, 3, 7]

  /** One colour parameter, on a foreground and a background. */
  function SgrParam(fg: bv8, bg: bv8, p: U32): (bv8, bv8) {
    if p == 0 then (7, 0)
    else if p == 1 then (fg | 8, bg)
    else if p == 22 then (fg & 0xF7, bg)
    else if 30 <= p <= 37 then ((fg & 8) | ANSI_TO_VGA[p - 30], bg)
    else if 40 <= p <= 47 then (fg, ANSI_TO_VGA[p - 40])
    else if 90 <= p <= 97 then (ANSI_TO_VGA[p - 90] | 8, bg)
    else (fg, bg)
  }

  function Sgr(fg: bv8, bg: bv8, ps: seq<U32>): (bv8, bv8) {
    if ps == [] then (fg, bg)
    else
      var (f, b) := Sgr(fg, bg, ps[..|ps| - 1]);
      SgrParam(f, b, ps[|ps| - 1])
  }

  function SgrColor(t: Term): bv8
    requires Bounded(t)
  {
    var (fg, bg) := Sgr(Foreground(t.color), Background(t.color), t.params[..if t.count == 0 then 1 else t.count]);
    Color(fg, bg)
  }

  function Foreground(color: bv8): bv8 { color & 15 }

  function Background(color: bv8): bv8 { (color >> 4) & 15 }

  function Color(fg: bv8, bg: bv8): bv8 { fg | (bg << 4) }

  function CursorUp(t: Term, n: U32): U32
    requires Bounded(t)
  {
    if t.y > Add32(t.view, n) then Sub32(t.y, n) else t.view
  }

  function CursorDown(t: Term, n: U32): U32
    requires Bounded(t)
  {
    if Add32(t.y, n) < t.view + TERM_ROWS - 1 then Add32(t.y, n) else t.view + TERM_ROWS - 1
  }

  function CursorRight(t: Term, n: U32): U32
    requires Bounded(t)
  {
    if Add32(t.x, n) < WIDTH then Add32(t.x, n) else WIDTH - 1
  }

  function EraseScreen(t: Term, p: U32): Grid
    requires Bounded(t)
  {
    var bottom := t.view + TERM_ROWS - 1;
    if p == 1 then ClearSpan(t.grid, t.view, 0, t.y, t.x, t.color)
    else if p == 2 then ClearSpan(t.grid, t.view, 0, bottom, WIDTH - 1, t.color)
    else ClearSpan(t.grid, t.y, t.x, bottom, WIDTH - 1, t.color)
  }

  function EraseLine(t: Term, p: U32): Grid
    requires Bounded(t)
  {
    if p == 1 then ClearSpan(t.grid, t.y, 0, t.y, t.x, t.color)
    else if p == 2 then ClearSpan(t.grid, t.y, 0, t.y, WIDTH - 1, t.color)
    else ClearSpan(t.grid, t.y, t.x, t.y, WIDTH - 1, t.color)
  }

  function SetRegion(t: Term, p0: U32, p1: U32): Term
    requires Bounded(t)
  {
    var b0 := if p1 == 0 || p1 > TERM_ROWS then TERM_ROWS else p1;
    var (a, b) := if OrOne(p0) >= b0 then (1, TERM_ROWS) else (OrOne(p0), b0);
    t.(top := a, bottom := b, y := RowToBuffer(t, a), x := 0)
  }

  /** A completed sequence, by its final byte. */
  function Dispatch(t: Term, final: Ch): Term
    requires Bounded(t)
  {
    var p0, p1 := P0(t), P1(t);
    match final as char
    case 'H' => t.(y := RowToBuffer(t, OrOne(p0)), x := if OrOne(p1) > WIDTH then WIDTH - 1 else OrOne(p1) - 1)
    case 'f' => t.(y := RowToBuffer(t, OrOne(p0)), x := if OrOne(p1) > WIDTH then WIDTH - 1 else OrOne(p1) - 1)
    case 'A' => t.(y := CursorUp(t, OrOne(p0)))
    case 'B' => t.(y := CursorDown(t, OrOne(p0)))
    case 'C' => t.(x := CursorRight(t, OrOne(p0)))
    case 'D' => t.(x := if t.x > OrOne(p0) then t.x - OrOne(p0) else 0)
    case 'J' => t.(grid := EraseScreen(t, p0))
    case 'K' => t.(grid := EraseLine(t, p0))
    case 'm' => t.(color := SgrColor(t))
    case 's' => t.(savedX := t.x, savedY := t.y)
    case 'u' => t.(x := t.savedX, y := t.savedY)
    case 'r' => SetRegion(t, p0, p1)
    case 'L' => InsertLines(t, p0)
    case 'M' => DeleteLines(t, p0)
    case _ => t
  }

  // ---- Bytes ---------------------------------------------------------------------------------

  predicate IsDigit(c: Ch) { 48 <= c <= 57 }

  /** A byte inside a sequence: a parameter digit, a separator, or the end of it. */
  function FeedCsi(t: Term, c: Ch): Term
    requires Bounded(t)
  {
    if IsDigit(c) then
      var k := if t.count == 0 then 1 else t.count;
      t.(count := k, params := t.params[k - 1 := (t.params[k - 1] * 10 + c - 48) % TWO32])
    else if c == 59 then
      var k := if t.count == 0 then 1 else t.count;
      if k < MAX_PARAMS then t.(count := k + 1, params := t.params[k := 0]) else t.(count := k)
    else Dispatch(t, c).(esc := Ground)
  }

  function Backspace(t: Term): Term
    requires Bounded(t)
  {
    var (y, x) := if t.x > 0 then (t.y, t.x - 1) else if t.y > 0 then (t.y - 1, WIDTH - 1) else (t.y, t.x);
    t.(y := y, x := x, grid := SetCell(t.grid, y, x, Blank(t.color)))
  }

  /** The buffer scrolls when the cursor has run off its end. */
  function Overflow(t: Term): Term {
    if t.y < MAX_SCROLL then t else t.(grid := ScrollUp(t.grid, t.color), y := MAX_SCROLL - 1)
  }

  /** The window follows a cursor that has left it. */
  function Follow(t: Term): Term {
    if t.y > t.view + TERM_ROWS - 1 then t.(view := t.y - (TERM_ROWS - 1))
    else if t.y < t.view then t.(view := t.y)
    else t
  }

  function NewLine(t: Term): Term
    requires Bounded(t)
  {
    t.(x := 0, y := t.y + 1)
  }

  function Print(t: Term, c: Ch): Term
    requires Bounded(t)
  {
    var g := SetCell(t.grid, t.y, t.x, Cell(c, t.color));
    if t.x + 1 < WIDTH then t.(grid := g, x := t.x + 1) else t.(grid := g, x := 0, y := t.y + 1)
  }

  /** A byte outside any sequence. */
  function Text(t: Term, c: Ch): Term
    requires Bounded(t)
  {
    if c == 8 then Backspace(t)
    else Follow(Overflow(if c == 10 then NewLine(t) else Print(t, c)))
  }

  /** Any byte. A control byte ends whatever sequence was in progress and is then taken as text. */
  function Put(t: Term, c: Ch): Term
    requires Bounded(t)
  {
    if c == 27 then t.(esc := Escape)
    else if t.esc == Ground then Text(t, c)
    else if c < 32 then Text(t.(esc := Ground), c)
    else if t.esc == Escape then
      if c == 91 then t.(esc := Csi, count := 0, params := t.params[0 := 0]) else t.(esc := Ground)
    else FeedCsi(t, c)
  }

  // ---- Staying inside the buffer -------------------------------------------------------------

  /**
   * The one way out: a cursor-up count so large that adding it to the window's top wraps, so
   * that the count is subtracted from a row it is not below.
   */
  predicate Escapes(t: Term, c: Ch)
    requires Bounded(t)
  {
    && t.esc == Csi && c == 'A' as int
    && t.view + OrOne(P0(t)) >= TWO32 && t.y > t.view + OrOne(P0(t)) - TWO32
    && t.y + TWO32 - OrOne(P0(t)) >= MAX_SCROLL
  }

  lemma DispatchStaysInside(t: Term, final: Ch)
    requires Bounded(t) && t.esc == Csi
    ensures Bounded(Dispatch(t, final)) <==> !Escapes(t, final)
  {
    hide InsertLines, DeleteLines, EraseScreen, EraseLine, SgrColor;
    MovesOnlyRows(t, P0(t));
    if final == 'A' as int {
      UpStaysInside(t);
    }
  }

  lemma UpStaysInside(t: Term)
    requires Bounded(t) && t.esc == Csi
    ensures CursorUp(t, OrOne(P0(t))) < MAX_SCROLL <==> !Escapes(t, 'A' as int)
  {
  }

  lemma MovesOnlyRows(t: Term, n: U32)
    requires Bounded(t)
    ensures InsertLines(t, n) == t.(grid := InsertLines(t, n).grid)
    ensures DeleteLines(t, n) == t.(grid := DeleteLines(t, n).grid)
  {
  }

  lemma TextStaysInside(t: Term, c: Ch)
    requires Bounded(t)
    ensures Bounded(Text(t, c))
  {
    hide SetCell, ScrollUp;
  }

  /** Every byte keeps every index inside the buffer, except exactly that one. */
  lemma PutStaysInside(t: Term, c: Ch)
    requires Bounded(t)
    ensures Bounded(Put(t, c)) <==> !Escapes(t, c)
  {
    hide Text, Dispatch;
    TextStaysInside(t, c);
    TextStaysInside(t.(esc := Ground), c);
    if t.esc == Csi {
      DispatchStaysInside(t, c);
    }
  }

  // ---- Whole streams -------------------------------------------------------------------------

  /** The stream never leaves the buffer. */
  predicate Inside(t: Term, s: seq<Ch>)
    decreases s
  {
    Bounded(t) && (s == [] || Inside(Put(t, s[0]), s[1..]))
  }

  function PutAll(t: Term, s: seq<Ch>): (r: Term)
    requires Inside(t, s)
    ensures Bounded(r)
    decreases s
  {
    if s == [] then t else PutAll(Put(t, s[0]), s[1..])
  }

  /** No cursor-up sequence of the stream carries a count that could wrap. */
  predicate Tame(t: Term, s: seq<Ch>)
    requires Bounded(t)
    decreases s
  {
    s == [] ||
    (&& (t.esc == Csi && s[0] == 'A' as int ==> P0(t) < TWO32 - (MAX_SCROLL - TERM_ROWS))
     && (Bounded(Put(t, s[0])) ==> Tame(Put(t, s[0]), s[1..])))
  }

  lemma {:induction false} TameStaysInside(t: Term, s: seq<Ch>)
    requires Bounded(t) && Tame(t, s)
    ensures Inside(t, s)
    decreases s
  {
    hide Put;
    if s != [] {
      PutStaysInside(t, s[0]);
      TameStaysInside(Put(t, s[0]), s[1..]);
    }
  }

  lemma {:induction false} PutAllConcat(t: Term, a: seq<Ch>, b: seq<Ch>)
    requires Inside(t, a) && Inside(PutAll(t, a), b)
    ensures Inside(t, a + b) && PutAll(t, a + b) == PutAll(PutAll(t, a), b)
    decreases a
  {
    hide Put, Bounded;
    if a == [] {
      assert a + b == b;
    } else {
      PutAllConcat(Put(t, a[0]), a[1..], b);
      assert (a + b)[1..] == a[1..] + b;
    }
  }

  // ---- Parameters are read as the numbers they spell ---------------------------------------------

  predicate AllDigits(s: seq<Ch>) { forall k :: 0 <= k < |s| ==> IsDigit(s[k]) }

  function Number(s: seq<Ch>): nat
    requires AllDigits(s)
  {
    if s == [] then 0 else Number(s[..|s| - 1]) * 10 + s[|s| - 1] - 48
  }

  lemma ShiftDigit(v: nat, d: nat)
    ensures (v % TWO32 * 10 + d) % TWO32 == (v * 10 + d) % TWO32
  {
    var q := v / TWO32;
    assert v * 10 + d == v % TWO32 * 10 + d + 10 * q * TWO32;
  }

  lemma DigitCollects(t: Term, pre: seq<Ch>, d: Ch)
    requires Bounded(t) && t.esc == Csi && t.count > 0 && AllDigits(pre) && IsDigit(d)
    requires t.params[t.count - 1] == Number(pre) % TWO32
    ensures AllDigits(pre + [d]) && Bounded(Put(t, d))
    ensures Put(t, d) == t.(params := t.params[t.count - 1 := Number(pre + [d]) % TWO32])
  {
    hide Dispatch, Text;
    assert (pre + [d])[..|pre|] == pre;
    ShiftDigit(Number(pre), d - 48);
  }

  /** A run of digits adds itself to the parameter being collected. */
  lemma {:induction false} DigitsCollect(t: Term, pre: seq<Ch>, s: seq<Ch>)
    requires Bounded(t) && t.esc == Csi && t.count > 0 && AllDigits(pre) && AllDigits(s)
    requires t.params[t.count - 1] == Number(pre) % TWO32
    ensures AllDigits(pre + s) && Inside(t, s)
    ensures PutAll(t, s) == t.(params := t.params[t.count - 1 := Number(pre + s) % TWO32])
    decreases s
  {
    hide Put, Number, PutAll, Inside;
    if s == [] {
      assert pre + s == pre;
      assert t.params[t.count - 1 := t.params[t.count - 1]] == t.params;
      PutNothing(t);
    } else {
      var t', pre' := Put(t, s[0]), pre + [s[0]];
      DigitCollects(t, pre, s[0]);
      DigitsCollect(t', pre', s[1..]);
      assert pre' + s[1..] == pre + s;
      PutFirst(t, s);
    }
  }

  lemma PutNothing(t: Term)
    requires Bounded(t)
    ensures Inside(t, []) && PutAll(t, []) == t
  {
    hide Bounded;
  }

  lemma PutFirst(t: Term, s: seq<Ch>)
    requires s != [] && Bounded(t) && Inside(Put(t, s[0]), s[1..])
    ensures Inside(t, s) && PutAll(t, s) == PutAll(Put(t, s[0]), s[1..])
  {
    hide Put, Bounded;
  }

  /** The first digit of a first parameter opens it. */
  lemma FirstParameter(t: Term, s: seq<Ch>)
    requires Bounded(t) && t.esc == Csi && t.count == 0 && t.params[0] == 0 && s != [] && AllDigits(s)
    ensures Inside(t, s) && PutAll(t, s) == t.(count := 1, params := t.params[0 := Number(s) % TWO32])
  {
    var t1 := Put(t, s[0]);
    assert t1 == t.(count := 1, params := t.params[0 := s[0] - 48]);
    assert Number([s[0]]) == s[0] - 48 by {
      assert [s[0]][..0] == [];
    }
    DigitsCollect(t1, [s[0]], s[1..]);
    assert [s[0]] + s[1..] == s;
    hide Put, Number;
    assert t1.params[0 := Number(s) % TWO32] == t.params[0 := Number(s) % TWO32];
  }

  const ESC: Ch := 27
  const OPEN: Ch := 91
  const SEP: Ch := 59

  /** A sequence with one parameter reaches its final byte with that parameter. */
  lemma OneParameter(t: Term, s: seq<Ch>)
    requires Bounded(t) && s != [] && AllDigits(s)
    ensures Inside(t, [ESC, OPEN] + s)
    ensures var r := PutAll(t, [ESC, OPEN] + s);
            r == t.(esc := Csi, count := 1, params := t.params[0 := Number(s) % TWO32])
  {
    var t1 := t.(esc := Csi, count := 0, params := t.params[0 := 0]);
    Introducer(t);
    FirstParameter(t1, s);
    hide Number;
    PutAllConcat(t, [ESC, OPEN], s);
    assert t1.params[0 := Number(s) % TWO32] == t.params[0 := Number(s) % TWO32];
  }

  lemma Introducer(t: Term)
    requires Bounded(t)
    ensures Inside(t, [ESC, OPEN])
    ensures PutAll(t, [ESC, OPEN]) == t.(esc := Csi, count := 0, params := t.params[0 := 0])
  {
    var t1 := t.(esc := Escape);
    EscapeStep(t);
    OpenStep(t1);
    hide Put, Bounded, PutAll, Inside;
    OneByte(t, ESC);
    OneByte(t1, OPEN);
    PutAllConcat(t, [ESC], [OPEN]);
    assert [ESC] + [OPEN] == [ESC, OPEN];
    assert t1.(esc := Csi, count := 0, params := t1.params[0 := 0]) == t.(esc := Csi, count := 0, params := t.params[0 := 0]);
  }

  lemma EscapeStep(t: Term)
    requires Bounded(t)
    ensures Put(t, ESC) == t.(esc := Escape) && Bounded(t.(esc := Escape))
  {
    hide Text, FeedCsi;
  }

  lemma OpenStep(t: Term)
    requires Bounded(t) && t.esc == Escape
    ensures Put(t, OPEN) == t.(esc := Csi, count := 0, params := t.params[0 := 0]) && Bounded(Put(t, OPEN))
  {
    hide Text, FeedCsi;
  }

  /**
   * Positioning the cursor: for every terminal, whatever sequence it was in the middle of, and
   * every row and column on the screen however they are spelt, the cursor lands there and
   * nothing drawn changes.
   */
  lemma CursorGoesThere(t: Term, row: seq<Ch>, col: seq<Ch>)
    requires Bounded(t) && row != [] && col != [] && AllDigits(row) && AllDigits(col)
    requires 1 <= Number(row) <= TERM_ROWS && 1 <= Number(col) <= WIDTH
    ensures var s := [ESC, OPEN] + row + [SEP] + col + ['H' as int];
            && Inside(t, s)
            && var r := PutAll(t, s);
               r.y == t.view + Number(row) - 1 && r.x == Number(col) - 1 && r.grid == t.grid && r.view == t.view && r.esc == Ground
  {
    hide Put, Number, PutAll, Inside;
    OneParameter(t, row);
    var a := [ESC, OPEN] + row;
    var t1 := PutAll(t, a);
    SecondParameter(t1, col);
    var b := [SEP] + col;
    PutAllConcat(t, a, b);
    var t2 := PutAll(t1, b);
    Arrives(t2);
    PutAllConcat(t, a + b, ['H' as int]);
    assert a + b + ['H' as int] == [ESC, OPEN] + row + [SEP] + col + ['H' as int];
  }

  lemma SeparatorIs(t: Term)
    requires Bounded(t) && t.esc == Csi
    ensures Bounded(Put(t, SEP))
    ensures var k := if t.count == 0 then 1 else t.count;
            Put(t, SEP) == if k < MAX_PARAMS then t.(count := k + 1, params := t.params[k := 0]) else t.(count := k)
  {
    hide Dispatch, Text;
  }

  lemma EmptyIsZero()
    ensures Number([]) % TWO32 == 0
  {
  }

  lemma SecondParameter(t: Term, s: seq<Ch>)
    requires Bounded(t) && t.esc == Csi && t.count == 1 && AllDigits(s)
    ensures Inside(t, [SEP] + s)
    ensures PutAll(t, [SEP] + s) == t.(count := 2, params := t.params[1 := Number(s) % TWO32])
  {
    hide Put, PutAll, Inside, Number;
    var t1 := Put(t, SEP);
    SeparatorIs(t);
    EmptyIsZero();
    DigitsCollect(t1, [], s);
    assert [] + s == s;
    assert ([SEP] + s)[1..] == s;
    PutFirst(t, [SEP] + s);
    assert t1.params[1 := Number(s) % TWO32] == t.params[1 := Number(s) % TWO32];
  }

  lemma Arrives(t: Term)
    requires Bounded(t) && t.esc == Csi && t.count == 2 && 1 <= t.params[0] <= TERM_ROWS && 1 <= t.params[1] <= WIDTH
    ensures Inside(t, ['H' as int])
    ensures PutAll(t, ['H' as int]) == t.(y := t.view + t.params[0] - 1, x := t.params[1] - 1, esc := Ground)
  {
    var h: Ch := 'H' as int;
    HomeByte(t, h);
    FinalByte(t, h);
    hide Dispatch, Put;
    OneByte(t, h);
  }

  lemma FinalByte(t: Term, c: Ch)
    requires Bounded(t) && t.esc == Csi && c >= 64
    ensures Put(t, c) == Dispatch(t, c).(esc := Ground)
  {
    hide Dispatch, Text;
  }

  lemma HomeByte(t: Term, h: Ch)
    requires Bounded(t) && t.count == 2 && 1 <= t.params[0] <= TERM_ROWS && 1 <= t.params[1] <= WIDTH && h == 'H' as int
    ensures Dispatch(t, h) == t.(y := t.view + t.params[0] - 1, x := t.params[1] - 1)
  {
    hide InsertLines, DeleteLines, EraseScreen, EraseLine, SgrColor, SetRegion, CursorUp, CursorDown, CursorRight;
  }

  lemma OneByte(t: Term, c: Ch)
    requires Bounded(t) && Bounded(Put(t, c))
    ensures Inside(t, [c]) && PutAll(t, [c]) == Put(t, c)
  {
    hide Put, Bounded;
    assert [c][1..] == [];
    assert Inside(Put(t, c), []);
  }

  // ---- Leaving the buffer, concretely ----------------------------------------------------------

  /** The digits of 4294967295. */
  const LARGEST: seq<Ch> := [52, 50, 57, 52, 57, 54, 55, 50, 57, 53]

  lemma NumberOfPrefix(s: seq<Ch>, k: nat)
    requires AllDigits(s) && k < |s|
    ensures Number(s[..k + 1]) == Number(s[..k]) * 10 + s[k] - 48
  {
    assert s[..k + 1][..k] == s[..k];
  }

  lemma LargestIsLargest()
    ensures AllDigits(LARGEST) && Number(LARGEST) == TWO32 - 1
  {
    hide Number;
    var s := LARGEST;
    assert Number(s[..0]) == 0 by {
      NumberOfNothing();
      assert s[..0] == [];
    }
    NumberOfPrefix(s, 0);
    NumberOfPrefix(s, 1);
    NumberOfPrefix(s, 2);
    NumberOfPrefix(s, 3);
    NumberOfPrefix(s, 4);
    NumberOfPrefix(s, 5);
    NumberOfPrefix(s, 6);
    NumberOfPrefix(s, 7);
    NumberOfPrefix(s, 8);
    NumberOfPrefix(s, 9);
    assert s[..10] == s;
  }

  lemma NumberOfNothing()
    ensures Number([]) == 0
  {
  }

  /** On a terminal scrolled to its end, going up by the largest count goes below the last row. */
  lemma UpGoesDown(t: Term)
    requires Bounded(t) && t.y == MAX_SCROLL - 1 && t.view == MAX_SCROLL - TERM_ROWS
    ensures Inside(t, [ESC, OPEN] + LARGEST)
    ensures Put(PutAll(t, [ESC, OPEN] + LARGEST), 'A' as int).y == MAX_SCROLL
  {
    LargestIsLargest();
    OneParameter(t, LARGEST);
    hide Number, PutAll, Inside;
    FinalByte(PutAll(t, [ESC, OPEN] + LARGEST), 'A' as int);
  }

  // ---- Moving lines ------------------------------------------------------------------------------

  /** Inserting and deleting lines touches no row outside the scroll region. */
  lemma RegionOnly(t: Term, n: U32, y: nat)
    requires Bounded(t) && y < MAX_SCROLL
    requires y < RowToBuffer(t, t.top) || y > RowToBuffer(t, t.bottom)
    ensures InsertLines(t, n).grid[y] == t.grid[y] && DeleteLines(t, n).grid[y] == t.grid[y]
  {
  }

  /** Inside it, every row is blank or one of the region's own, each kept row exactly once and in order. */
  lemma RowsMoveInOrder(t: Term, n: U32, y: nat)
    requires Bounded(t) && RowToBuffer(t, t.top) <= t.y <= y <= RowToBuffer(t, t.bottom)
    ensures var k, bot := RowsToMove(t, n), RowToBuffer(t, t.bottom);
            && 1 <= k <= bot - t.y + 1
            && InsertLines(t, n).grid[y] == (if y < t.y + k then BlankRow(t.color) else t.grid[y - k])
            && DeleteLines(t, n).grid[y] == (if y > bot - k then BlankRow(t.color) else t.grid[y + k])
  {
  }

  /** Deleting the lines just inserted gives back everything but what was pushed out of the region. */
  lemma DeleteUndoesInsert(t: Term, n: U32)
    requires Bounded(t)
    ensures var r, bot := DeleteLines(InsertLines(t, n), n).grid, RowToBuffer(t, t.bottom);
            forall y :: 0 <= y < MAX_SCROLL ==>
              r[y] == if bot - RowsToMove(t, n) < y <= bot then BlankRow(t.color) else t.grid[y]
  {
    var u := InsertLines(t, n);
    assert RowsToMove(u, n) == RowsToMove(t, n) && RowToBuffer(u, u.bottom) == RowToBuffer(t, t.bottom);
  }

  /** Whatever is printed is left in view. */
  lemma PrintedIsVisible(t: Term, c: Ch)
    requires Bounded(t) && c != 8
    ensures InWindow(Text(t, c))
  {
    hide SetCell, ScrollUp;
  }

  // ---- What the other sequences do -----------------------------------------------------------------

  function Least(a: int, b: int): int { if a < b then a else b }

  function Most(a: int, b: int): int { if a > b then a else b }

  /** The counts for which going up, or down, or right, is not what it says. */
  predicate UpWraps(t: Term, n: U32) { t.view + n >= TWO32 && t.y > t.view + n - TWO32 }

  predicate DownWraps(t: Term, n: U32) { t.y + n >= TWO32 && t.y + n - TWO32 < t.view + TERM_ROWS - 1 }

  predicate RightWraps(t: Term, n: U32) { t.x + n >= TWO32 }

  /** Relative motion is the distance asked for, stopped at the edges of the window, exactly when the count does not wrap. */
  lemma MotionIsClamped(t: Term, n: U32)
    requires Bounded(t) && n > 0
    ensures CursorUp(t, n) == Most(t.view, t.y - n) <==> !UpWraps(t, n)
    ensures CursorDown(t, n) == Least(t.view + TERM_ROWS - 1, t.y + n) <==> !DownWraps(t, n)
    ensures CursorRight(t, n) == Least(WIDTH - 1, t.x + n) <==> !RightWraps(t, n)
  {
    hide Add32, Sub32;
    SumIs(t.view, n);
    SumIs(t.y, n);
    SumIs(t.x, n);
    DifferenceIs(t.y, n);
  }

  /** Down by the largest count is up by one, and right by it is left by one. */
  lemma LargestCountTurnsBack(t: Term)
    requires Bounded(t) && InWindow(t)
    ensures t.y > 0 ==> CursorDown(t, TWO32 - 1) == t.y - 1
    ensures t.x > 0 ==> CursorRight(t, TWO32 - 1) == t.x - 1
  {
  }

  lemma SumIs(a: U32, b: U32)
    ensures Add32(a, b) == if a + b < TWO32 then a + b else a + b - TWO32
  {
  }

  lemma DifferenceIs(a: U32, b: U32)
    ensures Sub32(a, b) == if a >= b then a - b else a - b + TWO32
  {
  }

  /** A sequence that ends in one of these moves the cursor and nothing else, as far as it says unless its count wraps. */
  lemma MotionSequences(t: Term, n: U32)
    requires Bounded(t) && n == OrOne(P0(t))
    ensures Dispatch(t, 'A' as int) == t.(y := Most(t.view, t.y - n)) <==> !UpWraps(t, n)
    ensures Dispatch(t, 'B' as int) == t.(y := Least(t.view + TERM_ROWS - 1, t.y + n)) <==> !DownWraps(t, n)
    ensures Dispatch(t, 'C' as int) == t.(x := Least(WIDTH - 1, t.x + n)) <==> !RightWraps(t, n)
    ensures Dispatch(t, 'D' as int) == t.(x := Most(0, t.x - n))
  {
    MotionIsClamped(t, n);
    hide CursorUp, CursorDown, CursorRight, InsertLines, DeleteLines, EraseScreen, EraseLine, SgrColor, SetRegion;
  }

  /** Reading order: up to the cursor, and from the cursor on. */
  predicate ToCursor(t: Term, y: int, x: int) { y * WIDTH + x <= t.y * WIDTH + t.x }

  predicate FromCursor(t: Term, y: int, x: int) { t.y * WIDTH + t.x <= y * WIDTH + x }

  /** The cells an erase of the screen covers: from the window's first row to the cursor, the window, or from the cursor to its last row. */
  predicate ScreenCovered(t: Term, p: U32, y: int, x: int) {
    if p == 1 then t.view <= y && ToCursor(t, y, x)
    else if p == 2 then t.view <= y < t.view + TERM_ROWS
    else FromCursor(t, y, x) && y < t.view + TERM_ROWS
  }

  /** The cells an erase of the line covers. */
  predicate LineCovered(t: Term, p: U32, y: int, x: int) {
    y == t.y && (if p == 1 then ToCursor(t, y, x) else p == 2 || FromCursor(t, y, x))
  }

  /** Erasing blanks exactly the cells covered, in the current colour, and leaves every other as it was, wherever the cursor is. */
  lemma ErasesExactly(t: Term, p: U32, y: nat, x: nat)
    requires Bounded(t) && y < MAX_SCROLL && x < WIDTH
    ensures EraseScreen(t, p)[y][x] == if ScreenCovered(t, p, y, x) then Blank(t.color) else t.grid[y][x]
    ensures EraseLine(t, p)[y][x] == if LineCovered(t, p, y, x) then Blank(t.color) else t.grid[y][x]
  {
    hide ToCursor, FromCursor;
    OrderAt(t, y, x);
  }

  lemma ReadingOrder(y: nat, x: nat, y': nat, x': nat)
    requires x < WIDTH && x' < WIDTH
    ensures y * WIDTH + x <= y' * WIDTH + x' <==> y < y' || (y == y' && x <= x')
  {
  }

  lemma OrderAt(t: Term, y: nat, x: nat)
    requires Bounded(t) && x < WIDTH
    ensures ToCursor(t, y, x) <==> y < t.y || (y == t.y && x <= t.x)
    ensures FromCursor(t, y, x) <==> y > t.y || (y == t.y && x >= t.x)
  {
    ReadingOrder(y, x, t.y, t.x);
    ReadingOrder(t.y, t.x, y, x);
  }

}
