/**
 * The framebuffer console of drivers/console.c: cells drawn as scaled glyphs, a shadow that
 * spares redrawing what has not changed, and a cursor painted over the bottom of its cell.
 * On which screens the memory can show what the shadow says is proved exactly.
 */
module Framebuffer {
  import opened Common
  import opened Terminal
  import opened PixelMemory

  const COLS := 80
  const ROWS := 25
  const FONT_WIDTH := 8
  const FONT_HEIGHT := 16
  const FIRST_GLYPH := 32
  const GLYPH_COUNT := 95

  // ---- Where the console sits on a screen ------------------------------------------------

  datatype Layout = Layout(scale: nat, cols: nat, rows: nat, originX: nat, originY: nat)

  /** The console fits a screen at this scale. */
  predicate FitsAt(width: U32, height: U32, scale: nat) {
    COLS * FONT_WIDTH * scale <= width && ROWS * FONT_HEIGHT * scale <= height
  }

  /** Whole cells inside the screen. */
  predicate InScreen(l: Layout, width: nat, height: nat) {
    && l.scale > 0 && l.cols <= COLS && l.rows <= ROWS
    && l.originX + l.cols * (FONT_WIDTH * l.scale) <= width
    && l.originY + l.rows * (FONT_HEIGHT * l.scale) <= height
  }

  /** The arguments the console accepts. */
  predicate Accepts(pitch: U32, width: U32, height: U32, bpp: nat) {
    bpp == 32 && width >= FONT_WIDTH && height >= FONT_HEIGHT && pitch >= width * 4 % TWO32
  }

  /** What the check tells of an accepted screen: a line fits its distance to the next exactly below 2^30 pixels. */
  lemma LinesFit(pitch: U32, width: U32, height: U32, bpp: nat)
    requires Accepts(pitch, width, height, bpp)
    ensures pitch >= width * 4 <==> width < 0x4000_0000
  {
  }

  // ---- The scale ------------------------------------------------------------------------------

  /** The last scale whose products stay within 32 bits. */
  const LAST_SCALE := 6710886

  /** The test of the scale loop, as the code computes it. */
  predicate Passes(width: U32, height: U32, scale: nat) {
    COLS * FONT_WIDTH * scale % TWO32 <= width && ROWS * FONT_HEIGHT * scale % TWO32 <= height
  }

  /** Screens on which the loop gets past the last scale it can tell. */
  predicate Runaway(width: U32, height: U32) {
    COLS * FONT_WIDTH * LAST_SCALE <= width && ROWS * FONT_HEIGHT * (LAST_SCALE + 1) <= height
  }

  /** On exactly those screens the loop takes a scale at which the console does not fit for one at which it does. */
  lemma ScaleTestExact(width: U32, height: U32)
    ensures Runaway(width, height) <==>
              (forall s :: 1 < s <= LAST_SCALE + 1 ==> Passes(width, height, s)) && !FitsAt(width, height, LAST_SCALE + 1)
  {
    if forall s :: 1 < s <= LAST_SCALE + 1 ==> Passes(width, height, s) {
      assert Passes(width, height, LAST_SCALE) && Passes(width, height, LAST_SCALE + 1);
    }
  }

  /** The scales whose products, wrapped, are the largest there are. */
  const WIDEST := 20132659
  const HIGHEST := 225485783

  /** Screens on which some scale fails the test. */
  predicate Stops(width: U32, height: U32) { width < TWO32 - 128 || height < TWO32 - 16 }

  /** On exactly those the loop ends. */
  lemma ScaleStopsExact(width: U32, height: U32)
    ensures Stops(width, height) <==> exists s: nat :: s > 1 && !Passes(width, height, s)
  {
    assert !Passes(width, height, WIDEST) || !Passes(width, height, HIGHEST) <== Stops(width, height);
    if !Stops(width, height) {
      forall s: nat
        ensures Passes(width, height, s)
      {
        WideProduct(s);
        HighProduct(s);
      }
    }
  }

  /** Wrapped multiples of 640 are multiples of 128, and those of 400 of 16. */
  lemma WideProduct(s: nat)
    ensures COLS * FONT_WIDTH * s % TWO32 <= TWO32 - 128
  {
    var q, r := 640 * s / TWO32, 640 * s % TWO32;
    assert 640 * s == q * TWO32 + r;
    Multiple(r, 128, 5 * s - q * 33554432, 33554432);
  }

  lemma HighProduct(s: nat)
    ensures ROWS * FONT_HEIGHT * s % TWO32 <= TWO32 - 16
  {
    var q, r := 400 * s / TWO32, 400 * s % TWO32;
    assert 400 * s == q * TWO32 + r;
    Multiple(r, 16, 25 * s - q * 268435456, 268435456);
  }

  lemma Multiple(r: int, p: nat, m: int, n: int)
    requires r == p * m && p > 0 && r < p * n
    ensures r <= p * n - p
  {
    if m >= n {
      AtMost(n, m, p);
    } else {
      AtMost(m, n - 1, p);
    }
  }

  /**
   * The first scale after which the test fails, on every screen on which there is one: the
   * largest at which the whole console fits, or one, except on runaway screens.
   */
  method LargestScale(width: U32, height: U32) returns (scale: nat)
    requires Stops(width, height)
    ensures 1 <= scale < HIGHEST && !Passes(width, height, scale + 1)
    ensures forall s :: 1 < s <= scale ==> Passes(width, height, s)
    ensures !Runaway(width, height) ==>
              !FitsAt(width, height, scale + 1) && (scale > 1 ==> FitsAt(width, height, scale))
  {
    scale := 1;
    while Passes(width, height, scale + 1)
      invariant 1 <= scale < HIGHEST && (forall s :: 1 < s <= scale ==> Passes(width, height, s))
      invariant width < TWO32 - 128 ==> scale < WIDEST
      invariant !Runaway(width, height) ==> scale <= LAST_SCALE && (scale > 1 ==> FitsAt(width, height, scale))
      decreases HIGHEST - scale
    {
      scale := scale + 1;
    }
  }

  lemma DivRange(d: int, s: int, a: int, b: int)
    requires s > 0
    ensures a * s <= d < b * s <==> a <= d / s < b
  {
    var q, r := d / s, d % s;
    assert d == q * s + r;
    Distribute(q, 1, s);
    if a <= q < b {
      AtMost(a, q, s);
      AtMost(q + 1, b, s);
    } else if q < a {
      AtMost(q + 1, a, s);
    } else {
      AtMost(b, q, s);
    }
  }

  /** Any number of steps no larger than the quotient fits, and no other. */
  lemma StepsFit(total: nat, step: nat, k: nat)
    requires step > 0
    ensures k * step <= total <==> k <= total / step
  {
    var q := total / step;
    assert total == q * step + total % step;
    assert (q + 1) * step == q * step + step;
    DivRange(total, step, k, q + 1);
  }

  /** How many cells of a size fit a length, up to a limit. */
  function CellsIn(total: nat, size: nat, limit: nat): nat
    requires size > 0
  {
    if total / size > limit then limit else total / size
  }

  lemma CellsInFit(total: nat, size: nat, limit: nat)
    requires size > 0
    ensures CellsIn(total, size, limit) * size <= total && CellsIn(total, size, limit) <= limit
    ensures size <= total && limit > 0 ==> CellsIn(total, size, limit) > 0
    ensures limit * size <= total ==> CellsIn(total, size, limit) == limit
    ensures CellsIn(total, size, limit) < limit ==> (CellsIn(total, size, limit) + 1) * size > total
  {
    StepsFit(total, size, CellsIn(total, size, limit));
    StepsFit(total, size, 1);
    StepsFit(total, size, limit);
    StepsFit(total, size, CellsIn(total, size, limit) + 1);
  }

  /**
   * Whole cells inside the screen, with equal borders, at the largest whole-number scale that
   * leaves the whole console on it, one if none does, unless the screen is a runaway one.
   */
  method ComputeLayout(width: U32, height: U32) returns (l: Layout)
    requires Stops(width, height)
    ensures InScreen(l, width, height)
    ensures l.cols < COLS ==> (l.cols + 1) * (FONT_WIDTH * l.scale) > width
    ensures l.rows < ROWS ==> (l.rows + 1) * (FONT_HEIGHT * l.scale) > height
    ensures 0 <= width - (2 * l.originX + l.cols * (FONT_WIDTH * l.scale)) <= 1
    ensures 0 <= height - (2 * l.originY + l.rows * (FONT_HEIGHT * l.scale)) <= 1
    ensures !Runaway(width, height) ==>
              && !FitsAt(width, height, l.scale + 1) && (l.scale > 1 ==> FitsAt(width, height, l.scale))
              && (FitsAt(width, height, l.scale) ==> l.cols == COLS && l.rows == ROWS)
              && (width >= FONT_WIDTH && height >= FONT_HEIGHT ==> l.cols > 0 && l.rows > 0)
  {
    var scale := LargestScale(width, height);
    var w, h := FONT_WIDTH * scale, FONT_HEIGHT * scale;
    var cols, rows := CellsIn(width, w, COLS), CellsIn(height, h, ROWS);
    CellsInFit(width, w, COLS);
    CellsInFit(height, h, ROWS);
    hide CellsIn, Passes;
    l := Layout(scale, cols, rows, (width - cols * w) / 2, (height - rows * h) / 2);
  }

  // ---- Glyph coordinates -----------------------------------------------------------------

  /** The glyph row and column, counted over the whole console, that a screen pixel belongs to. */
  function GlyphRow(l: Layout, py: int): int
    requires l.scale > 0
  {
    (py - l.originY) / l.scale
  }

  function GlyphCol(l: Layout, px: int): int
    requires l.scale > 0
  {
    (px - l.originX) / l.scale
  }

  /** The screen columns of a range of glyph columns. */
  lemma ColumnsOf(l: Layout, a: int, b: int)
    requires l.scale > 0
    ensures forall px: int {:trigger GlyphCol(l, px)} ::
      l.originX + a * l.scale <= px < l.originX + b * l.scale <==> a <= GlyphCol(l, px) < b
  {
    forall px: int
      ensures l.originX + a * l.scale <= px < l.originX + b * l.scale <==> a <= GlyphCol(l, px) < b
    {
      DivRange(px - l.originX, l.scale, a, b);
    }
  }

  lemma RowsOf(l: Layout, a: int, b: int)
    requires l.scale > 0
    ensures forall py: int {:trigger GlyphRow(l, py)} ::
      l.originY + a * l.scale <= py < l.originY + b * l.scale <==> a <= GlyphRow(l, py) < b
  {
    forall py: int
      ensures l.originY + a * l.scale <= py < l.originY + b * l.scale <==> a <= GlyphRow(l, py) < b
    {
      DivRange(py - l.originY, l.scale, a, b);
    }
  }

  /** The pixel belongs to the rectangle of a cell. */
  predicate InCell(l: Layout, py: int, px: int, x: int, y: int)
    requires l.scale > 0
  {
    y * FONT_HEIGHT <= GlyphRow(l, py) < (y + 1) * FONT_HEIGHT && x * FONT_WIDTH <= GlyphCol(l, px) < (x + 1) * FONT_WIDTH
  }

  /** Cell rectangles lie inside the screen, and no two of them share a pixel. */
  lemma CellsAreApart(l: Layout, width: nat, height: nat, py: int, px: int, x: nat, y: nat, x': nat, y': nat)
    requires InScreen(l, width, height) && x < l.cols && y < l.rows && InCell(l, py, px, x, y)
    ensures 0 <= px < width && 0 <= py < height
    ensures InCell(l, py, px, x', y') ==> x == x' && y == y'
  {
    DivRange(px - l.originX, l.scale, 0, l.cols * FONT_WIDTH);
    DivRange(py - l.originY, l.scale, 0, l.rows * FONT_HEIGHT);
    Regroup(l.cols, FONT_WIDTH, l.scale);
    Regroup(l.rows, FONT_HEIGHT, l.scale);
    assert GlyphCol(l, px) == (px - l.originX) / l.scale && GlyphRow(l, py) == (py - l.originY) / l.scale;
    hide GlyphCol, GlyphRow;
  }

  /** So when no two pixels share a byte no two cells do. */
  lemma CellsShareNoByte(l: Layout, pitch: U32, width: nat, height: nat,
                         py: int, px: int, x: nat, y: nat, py': int, px': int, x': nat, y': nat)
    requires InScreen(l, width, height) && LinesApart(pitch, width, height)
    requires x < l.cols && y < l.rows && x' < l.cols && y' < l.rows && (x, y) != (x', y')
    requires InCell(l, py, px, x, y) && InCell(l, py', px', x', y')
    ensures Apart(At(pitch, py, px), At(pitch, py', px'))
  {
    hide InCell, At, Apart, LinesApart, InScreen;
    CellsAreApart(l, width, height, py, px, x, y, x', y');
    CellsAreApart(l, width, height, py', px', x', y', x, y);
    PixelsApartExact(pitch, width, height);
  }

  // ---- Rendering from scratch ---------------------------------------------------------------

  type Glyph = g: seq<bv8> | |g| == FONT_HEIGHT witness seq(FONT_HEIGHT, _ => 0)

  datatype Font = Font(glyphs: seq<Glyph>, fallback: Glyph)

  /** Every glyph is there, and the space is blank. */
  ghost predicate FontOk(f: Font) {
    |f.glyphs| == GLYPH_COUNT && forall row :: 0 <= row < FONT_HEIGHT ==> f.glyphs[0][row] == 0
  }

  function GlyphOf(f: Font, ch: Ch): Glyph
    requires |f.glyphs| == GLYPH_COUNT
  {
    if FIRST_GLYPH <= ch < FIRST_GLYPH + GLYPH_COUNT then f.glyphs[ch - FIRST_GLYPH] else f.fallback
  }

  predicate Bit(bits: bv8, col: nat)
    requires col < FONT_WIDTH
  {
    bits & (0x80 >> col) != 0
  }

  /** The pixel values of the sixteen text-mode colours. */
  function Rgb(c: bv8): U32 {
    match c
    case 0 => 0x000000
    case 1 => 0x0000AA
    case 2 => 0x00AA00
    case 3 => 0x00AAAA
    case 4 => 0xAA0000
    case 5 => 0xAA00AA
    case 6 => 0xAA5500
    case 7 => 0xAAAAAA
    case 8 => 0x555555
    case 9 => 0x5555FF
    case 10 => 0x55FF55
    case 11 => 0x55FFFF
    case 12 => 0xFF5555
    case 13 => 0xFF55FF
    case 14 => 0xFFFF55
    case _ => 0xFFFFFF
  }

  function Ink(cell: Cell): U32 { Rgb(Foreground(cell.color)) }

  function Paper(cell: Cell): U32 { Rgb(Background(cell.color)) }

  /** A cell's pixel with nothing over it. */
  function CellPixel(f: Font, cell: Cell, row: nat, col: nat): U32
    requires |f.glyphs| == GLYPH_COUNT && row < FONT_HEIGHT && col < FONT_WIDTH
  {
    if Bit(GlyphOf(f, cell.ch)[row], col) then Ink(cell) else Paper(cell)
  }

  /** A cell's pixel with the cursor, if it is there, over the two bottom rows. */
  function ShownPixel(f: Font, cell: Cell, row: nat, col: nat, cursor: bool): U32
    requires |f.glyphs| == GLYPH_COUNT && row < FONT_HEIGHT && col < FONT_WIDTH
  {
    if cursor && row >= FONT_HEIGHT - 2 then Ink(cell) else CellPixel(f, cell, row, col)
  }

  // ---- What a screen should show ----------------------------------------------------------------

  /** A console's cells, row after row, and its cursor. */
  datatype Scene = Scene(font: Font, l: Layout, cells: seq<Cell>, cursorX: nat, cursorY: nat, shown: bool)

  ghost predicate SceneOk(v: Scene) {
    && FontOk(v.font) && v.l.scale > 0 && v.l.cols <= COLS && v.l.rows <= ROWS
    && |v.cells| == ROWS * COLS
  }

  /** One call of the console. */
  datatype Stroke = Put(x: nat, y: nat, cell: Cell) | Point(x: nat, y: nat)

  ghost function BlankConsole(f: Font, l: Layout): Scene { Scene(f, l, seq(ROWS * COLS, _ => Cell(32, 7)), 0, 0, false) }

  predicate Inside(l: Layout, s: Stroke) { s.x < l.cols && s.y < l.rows }

  /** The scene one call asks for: off the console a cell is ignored, and the cursor hidden. */
  ghost function After(v: Scene, s: Stroke): Scene
    requires SceneOk(v)
  {
    match s
    case Put(x, y, cell) => if Inside(v.l, s) then v.(cells := v.cells[y * COLS + x := cell]) else v
    case Point(x, y) => if Inside(v.l, s) then v.(cursorX := x, cursorY := y, shown := true) else v.(shown := false)
  }

  ghost function Struck(v: Scene, strokes: seq<Stroke>): (r: Scene)
    requires SceneOk(v)
    ensures SceneOk(r) && r.font == v.font && r.l == v.l
  {
    if strokes == [] then v
    else After(Struck(v, strokes[..|strokes| - 1]), strokes[|strokes| - 1])
  }

  /** The last cell put at a place is there at the end, and the cursor is where it was last sent. */
  lemma {:induction false} LastStrokeStays(v: Scene, strokes: seq<Stroke>, i: nat)
    requires SceneOk(v) && i < |strokes|
    ensures var s, r := strokes[i], Struck(v, strokes);
            && (s.Put? && Inside(v.l, s) && (forall j :: i < j < |strokes| ==> strokes[j].Point? || (strokes[j].x, strokes[j].y) != (s.x, s.y)) ==>
                  r.cells[s.y * COLS + s.x] == s.cell)
            && (s.Point? && (forall j :: i < j < |strokes| ==> strokes[j].Put?) ==>
                  r.shown == Inside(v.l, s) && (r.shown ==> (r.cursorX, r.cursorY) == (s.x, s.y)))
  {
    var n := |strokes| - 1;
    if i < n {
      assert strokes[..n][i] == strokes[i];
      LastStrokeStays(v, strokes[..n], i);
      if Inside(v.l, strokes[i]) && Inside(v.l, strokes[n]) {
        SameIndex(strokes[i].y, strokes[i].x, strokes[n].y, strokes[n].x);
      }
    }
  }

  /** The pixel belongs to the console, not to the border around it. */
  predicate InConsole(l: Layout, py: int, px: int)
    requires l.scale > 0
  {
    0 <= GlyphRow(l, py) < l.rows * FONT_HEIGHT && 0 <= GlyphCol(l, px) < l.cols * FONT_WIDTH
  }

  /** A pixel drawn from scratch: nothing in the border, else its cell, and the cursor over it. */
  ghost function Painted(v: Scene, py: int, px: int): U32
    requires SceneOk(v)
  {
    if InConsole(v.l, py, px) then
      var row, col := GlyphRow(v.l, py), GlyphCol(v.l, px);
      var y, x := row / FONT_HEIGHT, col / FONT_WIDTH;
      ShownPixel(v.font, v.cells[y * COLS + x], row % FONT_HEIGHT, col % FONT_WIDTH, v.shown && v.cursorX == x && v.cursorY == y)
    else 0
  }

  /** The bit of a glyph's row that its columns show, from the left. */
  const COLUMN_BITS: seq<bv8> := [128, 64, 32, 16, 8, 4, 2, 1]

  lemma BitIsColumn(bits: bv8, col: nat)
    requires col < FONT_WIDTH
    ensures Bit(bits, col) <==> bits & COLUMN_BITS[col] != 0
  {
    assert Bit(bits, 0) == (bits & 128 != 0) && Bit(bits, 1) == (bits & 64 != 0) && Bit(bits, 2) == (bits & 32 != 0);
    assert Bit(bits, 3) == (bits & 16 != 0) && Bit(bits, 4) == (bits & 8 != 0) && Bit(bits, 5) == (bits & 4 != 0);
    assert Bit(bits, 6) == (bits & 2 != 0) && Bit(bits, 7) == (bits & 1 != 0);
    hide Bit;
  }

  /**
   * Where a glyph's pixels are on the screen: row `row` and column `col` of the glyph in cell
   * (x, y), counted down and to the right, is a square of `scale` pixels in the ink of the cell if
   * that bit of the glyph is set, or the cursor is over it, and in its paper otherwise.
   */
  lemma GlyphOnScreen(v: Scene, x: nat, y: nat, row: nat, col: nat, dy: nat, dx: nat)
    requires SceneOk(v) && x < v.l.cols && y < v.l.rows && row < FONT_HEIGHT && col < FONT_WIDTH && dy < v.l.scale && dx < v.l.scale
    ensures var cell := v.cells[y * COLS + x];
            var cursor := v.shown && v.cursorX == x && v.cursorY == y && row >= FONT_HEIGHT - 2;
            Painted(v, v.l.originY + (16 * y + row) * v.l.scale + dy, v.l.originX + (8 * x + col) * v.l.scale + dx) ==
            if cursor || GlyphOf(v.font, cell.ch)[row] & COLUMN_BITS[col] != 0 then Rgb(cell.color & 15) else Rgb((cell.color >> 4) & 15)
  {
    var py, px := v.l.originY + (16 * y + row) * v.l.scale + dy, v.l.originX + (8 * x + col) * v.l.scale + dx;
    InSquare(16 * y + row, v.l.scale, dy);
    InSquare(8 * x + col, v.l.scale, dx);
    assert GlyphRow(v.l, py) == 16 * y + row && GlyphCol(v.l, px) == 8 * x + col;
    BitIsColumn(GlyphOf(v.font, v.cells[y * COLS + x].ch)[row], col);
    hide GlyphRow, GlyphCol, Bit, GlyphOf, Rgb;
    CellCoordinates(x, y, row, col);
  }

  lemma InSquare(k: nat, s: nat, d: nat)
    requires d < s
    ensures (k * s + d) / s == k
  {
    Distribute(k, 1, s);
    DivRange(k * s + d, s, k, k + 1);
  }

  lemma CellCoordinates(x: nat, y: nat, row: nat, col: nat)
    requires row < FONT_HEIGHT && col < FONT_WIDTH
    ensures (16 * y + row) / FONT_HEIGHT == y && (16 * y + row) % FONT_HEIGHT == row
    ensures (8 * x + col) / FONT_WIDTH == x && (8 * x + col) % FONT_WIDTH == col
  {
  }

  /** The strength of one beam: two thirds, and the last third when it is bright. */
  function Level(on: bool, bright: bool): nat { (if on then 0xAA else 0) + (if bright then 0x55 else 0) }

  /** The palette mixes red, green and blue; only dark yellow is made brown. */
  lemma PaletteMixes(c: bv8)
    requires c < 16
    ensures Rgb(c) == 0x1_0000 * Level(c & 4 != 0, c & 8 != 0)
                      + 0x100 * (if c == 6 then 0x55 else Level(c & 2 != 0, c & 8 != 0))
                      + Level(c & 1 != 0, c & 8 != 0)
  {
  }

  /** No two pixels ask for different things of one byte. */
  ghost predicate Consistent(v: Scene, pitch: U32, width: nat, height: nat)
    requires SceneOk(v)
  {
    forall r, c, r', c' :: 0 <= r < height && 0 <= c < width && 0 <= r' < height && 0 <= c' < width ==>
      Agree(At(pitch, r, c), Painted(v, r, c), At(pitch, r', c'), Painted(v, r', c'))
  }

  /** The memory shows the scene. */
  ghost predicate ShownBy(mem: seq<Octet>, v: Scene, pitch: U32, width: nat, height: nat)
    requires SceneOk(v)
  {
    |mem| == TWO32 && forall r, c :: 0 <= r < height && 0 <= c < width ==> Peek(mem, At(pitch, r, c)) == Painted(v, r, c)
  }

  /** Only a consistent scene can be shown. */
  lemma ShownIsConsistent(mem: seq<Octet>, v: Scene, pitch: U32, width: nat, height: nat)
    requires SceneOk(v) && ShownBy(mem, v, pitch, width, height)
    ensures Consistent(v, pitch, width, height)
  {
    hide Agree, At, Painted, Peek;
    forall r, c, r', c' | 0 <= r < height && 0 <= c < width && 0 <= r' < height && 0 <= c' < width
      ensures Agree(At(pitch, r, c), Painted(v, r, c), At(pitch, r', c'), Painted(v, r', c'))
    {
      ShownAgree(mem, At(pitch, r, c), Painted(v, r, c), At(pitch, r', c'), Painted(v, r', c'));
    }
  }

  // ---- On which screens every scene can be shown --------------------------------------------------

  predicate SameCell(l: Layout, py: int, px: int, py': int, px': int)
    requires l.scale > 0
  {
    && InConsole(l, py, px) && InConsole(l, py', px')
    && GlyphRow(l, py) / FONT_HEIGHT == GlyphRow(l, py') / FONT_HEIGHT
    && GlyphCol(l, px) / FONT_WIDTH == GlyphCol(l, px') / FONT_WIDTH
  }

  /** No glyph, and no cursor, tells two places of a cell apart. */
  ghost predicate Alike(f: Font, row: nat, col: nat, row': nat, col': nat)
    requires |f.glyphs| == GLYPH_COUNT && row < FONT_HEIGHT && col < FONT_WIDTH && row' < FONT_HEIGHT && col' < FONT_WIDTH
  {
    && (forall ch: Ch :: Bit(GlyphOf(f, ch)[row], col) == Bit(GlyphOf(f, ch)[row'], col'))
    && (row >= FONT_HEIGHT - 2 <==> row' >= FONT_HEIGHT - 2)
  }

  /** Drawing the first pixel, whose top byte is always zero, cannot spoil the second. */
  predicate Clear(a: U32, b: U32) { 3 <= (b - a) % TWO32 <= TWO32 - 4 }

  ghost predicate Spares(f: Font, l: Layout, pitch: U32, py: int, px: int, py': int, px': int)
    requires |f.glyphs| == GLYPH_COUNT && l.scale > 0
  {
    if SameCell(l, py, px, py', px') && At(pitch, py, px) == At(pitch, py', px')
    then Alike(f, GlyphRow(l, py) % FONT_HEIGHT, GlyphCol(l, px) % FONT_WIDTH, GlyphRow(l, py') % FONT_HEIGHT, GlyphCol(l, px') % FONT_WIDTH)
    else Clear(At(pitch, py, px), At(pitch, py', px'))
  }

  /** No console pixel spoils another pixel of the screen. */
  ghost predicate Drawable(f: Font, l: Layout, pitch: U32, width: nat, height: nat)
    requires |f.glyphs| == GLYPH_COUNT && l.scale > 0
  {
    forall r, c, r', c' ::
      0 <= r < height && 0 <= c < width && 0 <= r' < height && 0 <= c' < width && (r, c) != (r', c') && InConsole(l, r, c) ==>
        Spares(f, l, pitch, r, c, r', c')
  }

  lemma TopByte(x: U32)
    requires x < 0x100_0000
    ensures Part(x, 3) == 0
  {
  }

  lemma PaintedIsColour(v: Scene, py: int, px: int)
    requires SceneOk(v)
    ensures Painted(v, py, px) < 0x100_0000
  {
    hide GlyphRow, GlyphCol, Bit, GlyphOf;
  }

  lemma NothingHasNoBytes(k: nat)
    ensures Part(0, k) == 0
  {
  }

  /** Between clear addresses only the top byte of the first is shared, with the lowest of the second. */
  lemma ClearShares(a: U32, b: U32, j: nat, k: nat)
    requires Clear(a, b) && j < 4 && k < 4 && ByteAt(a, j) == ByteAt(b, k)
    ensures j == 3 && k == 0 && !Clear(b, a)
  {
    SharedByte(a, b, j, k);
    hide ByteAt;
  }

  /** A console pixel agrees with every pixel it spares and is spared by. */
  lemma SparedAgree(v: Scene, pitch: U32, py: int, px: int, py': int, px': int)
    requires SceneOk(v) && InConsole(v.l, py, px) && Spares(v.font, v.l, pitch, py, px, py', px')
    requires InConsole(v.l, py', px') ==> Spares(v.font, v.l, pitch, py', px', py, px)
    ensures Agree(At(pitch, py, px), Painted(v, py, px), At(pitch, py', px'), Painted(v, py', px'))
  {
    var a, b, x, y := At(pitch, py, px), At(pitch, py', px'), Painted(v, py, px), Painted(v, py', px');
    if SameCell(v.l, py, px, py', px') && a == b {
      AlikeSame(v, pitch, py, px, py', px');
      AgreeWithItself(a, x);
    } else {
      PaintedIsColour(v, py, px);
      assert !InConsole(v.l, py', px') ==> y == 0;
      assert InConsole(v.l, py', px') ==> Clear(b, a);
      hide Painted, InConsole, Spares, ByteAt, Part;
      forall j: nat, k: nat | j < 4 && k < 4 && ByteAt(a, j) == ByteAt(b, k)
        ensures Part(x, j) == Part(y, k)
      {
        ClearShares(a, b, j, k);
        TopByte(x);
        NothingHasNoBytes(k);
      }
    }
  }

  lemma AlikeSame(v: Scene, pitch: U32, py: int, px: int, py': int, px': int)
    requires SceneOk(v) && Spares(v.font, v.l, pitch, py, px, py', px')
    requires SameCell(v.l, py, px, py', px') && At(pitch, py, px) == At(pitch, py', px')
    ensures Painted(v, py, px) == Painted(v, py', px')
  {
    hide GlyphRow, GlyphCol, At, Bit, Ink, Paper, GlyphOf;
    var y, x := GlyphRow(v.l, py) / FONT_HEIGHT, GlyphCol(v.l, px) / FONT_WIDTH;
    var ch := v.cells[y * COLS + x].ch;
    assert Bit(GlyphOf(v.font, ch)[GlyphRow(v.l, py) % FONT_HEIGHT], GlyphCol(v.l, px) % FONT_WIDTH) ==
           Bit(GlyphOf(v.font, ch)[GlyphRow(v.l, py') % FONT_HEIGHT], GlyphCol(v.l, px') % FONT_WIDTH);
  }

  /** On a drawable screen every scene is consistent. */
  lemma DrawableIsConsistent(v: Scene, pitch: U32, width: nat, height: nat)
    requires SceneOk(v) && Drawable(v.font, v.l, pitch, width, height)
    ensures Consistent(v, pitch, width, height)
  {
    hide Agree, At, Spares, Part, ByteAt;
    forall r, c, r', c' | 0 <= r < height && 0 <= c < width && 0 <= r' < height && 0 <= c' < width
      ensures Agree(At(pitch, r, c), Painted(v, r, c), At(pitch, r', c'), Painted(v, r', c'))
    {
      PixelsAgree(v, pitch, width, height, r, c, r', c');
    }
  }

  lemma PixelsAgree(v: Scene, pitch: U32, width: nat, height: nat, r: int, c: int, r': int, c': int)
    requires SceneOk(v) && Drawable(v.font, v.l, pitch, width, height)
    requires 0 <= r < height && 0 <= c < width && 0 <= r' < height && 0 <= c' < width
    ensures Agree(At(pitch, r, c), Painted(v, r, c), At(pitch, r', c'), Painted(v, r', c'))
  {
    var a, b, x, y := At(pitch, r, c), At(pitch, r', c'), Painted(v, r, c), Painted(v, r', c');
    if (r, c) == (r', c') {
      AgreeWithItself(a, x);
    } else if InConsole(v.l, r, c) {
      SparedAgree(v, pitch, r, c, r', c');
    } else if InConsole(v.l, r', c') {
      SparedAgree(v, pitch, r', c', r, c);
      AgreeBothWays(a, x, b, y);
    } else {
      NothingAgrees(a, b);
    }
  }

  lemma NothingAgrees(a: U32, b: U32)
    ensures Agree(a, 0, b, 0)
  {
    hide ByteAt;
    forall k: nat
      ensures Part(0, k) == 0
    {
      NothingHasNoBytes(k);
    }
  }

  /** A blank console with one cell put on it. */
  ghost function OneCell(f: Font, l: Layout, x: nat, y: nat, cell: Cell): Scene {
    Scene(f, l, seq(ROWS * COLS, i requires 0 <= i < ROWS * COLS => if i == y * COLS + x then cell else Cell(32, 7)), 0, 0, false)
  }

  /** A blank console with the cursor on it. */
  ghost function OneCursor(f: Font, l: Layout, x: nat, y: nat): Scene {
    OneCell(f, l, x, y, Cell(32, 7)).(cursorX := x, cursorY := y, shown := true)
  }

  /** The cell of a console pixel. */
  function CellX(l: Layout, px: int): int
    requires l.scale > 0
  {
    GlyphCol(l, px) / FONT_WIDTH
  }

  function CellY(l: Layout, py: int): int
    requires l.scale > 0
  {
    GlyphRow(l, py) / FONT_HEIGHT
  }

  lemma CellInside(l: Layout, py: int, px: int)
    requires l.scale > 0 && l.cols <= COLS && l.rows <= ROWS && InConsole(l, py, px)
    ensures 0 <= CellX(l, px) < l.cols && 0 <= CellY(l, py) < l.rows && CellY(l, py) * COLS + CellX(l, px) < ROWS * COLS
  {
    hide GlyphRow, GlyphCol;
  }

  lemma SpaceIsPaper(f: Font, color: bv8, row: nat, col: nat)
    requires FontOk(f) && row < FONT_HEIGHT && col < FONT_WIDTH
    ensures CellPixel(f, Cell(32, color), row, col) == Paper(Cell(32, color))
  {
    assert GlyphOf(f, 32)[row] == 0;
    NoBits(col);
  }

  lemma Colours()
    ensures Paper(Cell(32, 0xF7)) == 0xFF_FFFF && Paper(Cell(32, 7)) == 0 && Ink(Cell(32, 7)) == 0xAA_AAAA
    ensures forall ch: Ch {:trigger Ink(Cell(ch, 15))} :: Ink(Cell(ch, 15)) == 0xFF_FFFF
    ensures forall ch: Ch {:trigger Paper(Cell(ch, 15))} :: Paper(Cell(ch, 15)) == 0
  {
  }

  /** A white cell is white, and the rest of the screen black. */
  lemma WhiteCell(f: Font, l: Layout, x: nat, y: nat, py: int, px: int)
    requires FontOk(f) && l.scale > 0 && x < l.cols <= COLS && y < l.rows <= ROWS
    ensures var v := OneCell(f, l, x, y, Cell(32, 0xF7));
            SceneOk(v) && Painted(v, py, px) == if InConsole(l, py, px) && CellX(l, px) == x && CellY(l, py) == y then 0xFF_FFFF else 0
  {
    hide GlyphRow, GlyphCol, CellPixel, Ink, Paper;
    Colours();
    if InConsole(l, py, px) {
      CellInside(l, py, px);
      SpaceIsPaper(f, 0xF7, GlyphRow(l, py) % FONT_HEIGHT, GlyphCol(l, px) % FONT_WIDTH);
      SpaceIsPaper(f, 7, GlyphRow(l, py) % FONT_HEIGHT, GlyphCol(l, px) % FONT_WIDTH);
    }
  }

  /** A white pixel and a black one, or two white ones not quite on top of each other, want different things of a byte. */
  lemma WhiteDisagrees(a: U32, b: U32, y: U32)
    requires !Clear(a, b) && (y == 0 || (y == 0xFF_FFFF && a != b))
    ensures !Agree(a, 0xFF_FFFF, b, y)
  {
    WhiteBytes();
    hide Part, ByteAt;
    var d := (b - a) % TWO32;
    if d < 3 {
      if y == 0 {
        SharedByte(a, b, d, 0);
        NothingHasNoBytes(0);
      } else {
        SharedByte(a, b, 3, 3 - d);
      }
    } else {
      var e := TWO32 - d;
      if y == 0 {
        SharedByte(a, b, 0, e);
        NothingHasNoBytes(e);
      } else {
        SharedByte(a, b, 3 - e, 3);
      }
    }
  }

  lemma WhiteBytes()
    ensures Part(0xFF_FFFF, 0) == 255 && Part(0xFF_FFFF, 1) == 255 && Part(0xFF_FFFF, 2) == 255 && Part(0xFF_FFFF, 3) == 0
  {
  }

  /** Two values at one address agree only if they are the same. */
  lemma OneAddress(a: U32, x: U32, y: U32)
    ensures Agree(a, x, a, y) ==> x == y
  {
    PartsMake(x);
    PartsMake(y);
    hide Part, ByteAt;
    if Agree(a, x, a, y) {
      assert Part(x, 0) == Part(y, 0) && Part(x, 1) == Part(y, 1) && Part(x, 2) == Part(y, 2) && Part(x, 3) == Part(y, 3);
    }
  }

  lemma Inconsistent(v: Scene, pitch: U32, width: nat, height: nat, r: int, c: int, r': int, c': int)
    requires SceneOk(v) && 0 <= r < height && 0 <= c < width && 0 <= r' < height && 0 <= c' < width
    requires !Agree(At(pitch, r, c), Painted(v, r, c), At(pitch, r', c'), Painted(v, r', c'))
    ensures !Consistent(v, pitch, width, height)
  {
  }

  /**
   * Where a console pixel does not spare another pixel, putting one cell on the blank console,
   * or the cursor, asks for what no memory can show.
   */
  lemma SpoiledScene(f: Font, l: Layout, pitch: U32, width: nat, height: nat, r: int, c: int, r': int, c': int) returns (v: Scene)
    requires FontOk(f) && l.scale > 0 && l.cols <= COLS && l.rows <= ROWS
    requires 0 <= r < height && 0 <= c < width && 0 <= r' < height && 0 <= c' < width
    requires InConsole(l, r, c) && !Spares(f, l, pitch, r, c, r', c')
    ensures OneStroke(v, f, l) && !Consistent(v, pitch, width, height)
  {
    hide At, Agree, GlyphRow, GlyphCol, Consistent;
    CellInside(l, r, c);
    var x, y := CellX(l, c), CellY(l, r);
    OneCellIsPut(f, l, x, y, Cell(32, 0xF7));
    if SameCell(l, r, c, r', c') && At(pitch, r, c) == At(pitch, r', c') {
      v := ToldApart(f, l, x, y, r, c, r', c');
      OneAddress(At(pitch, r, c), Painted(v, r, c), Painted(v, r', c'));
    } else {
      v := OneCell(f, l, x, y, Cell(32, 0xF7));
      WhiteCell(f, l, x, y, r, c);
      WhiteCell(f, l, x, y, r', c');
      WhiteDisagrees(At(pitch, r, c), At(pitch, r', c'), Painted(v, r', c'));
    }
    Inconsistent(v, pitch, width, height, r, c, r', c');
  }

  /** The scene is one stroke away from a blank console. */
  ghost predicate OneStroke(v: Scene, f: Font, l: Layout) {
    SceneOk(BlankConsole(f, l)) && exists s: Stroke :: v == After(BlankConsole(f, l), s)
  }

  lemma OneCellIsPut(f: Font, l: Layout, x: nat, y: nat, cell: Cell)
    requires SceneOk(BlankConsole(f, l)) && x < l.cols && y < l.rows
    ensures OneCell(f, l, x, y, cell) == After(BlankConsole(f, l), Put(x, y, cell))
    ensures OneCursor(f, l, x, y) == After(BlankConsole(f, l), Point(x, y))
  {
    assert OneCell(f, l, x, y, Cell(32, 7)).cells == BlankConsole(f, l).cells;
  }

  /** Two places of a cell that are not alike are told apart by a glyph or by the cursor. */
  lemma ToldApart(f: Font, l: Layout, x: nat, y: nat, r: int, c: int, r': int, c': int) returns (v: Scene)
    requires FontOk(f) && l.scale > 0 && l.cols <= COLS && l.rows <= ROWS && SameCell(l, r, c, r', c')
    requires x == CellX(l, c) && y == CellY(l, r)
    requires !Alike(f, GlyphRow(l, r) % FONT_HEIGHT, GlyphCol(l, c) % FONT_WIDTH, GlyphRow(l, r') % FONT_HEIGHT, GlyphCol(l, c') % FONT_WIDTH)
    ensures OneStroke(v, f, l) && Painted(v, r, c) != Painted(v, r', c')
  {
    hide GlyphRow, GlyphCol, Ink, Paper, Bit, GlyphOf;
    Colours();
    CellInside(l, r, c);
    var row, col := GlyphRow(l, r) % FONT_HEIGHT, GlyphCol(l, c) % FONT_WIDTH;
    var row', col' := GlyphRow(l, r') % FONT_HEIGHT, GlyphCol(l, c') % FONT_WIDTH;
    if row >= FONT_HEIGHT - 2 <==> row' >= FONT_HEIGHT - 2 {
      var ch: Ch :| Bit(GlyphOf(f, ch)[row], col) != Bit(GlyphOf(f, ch)[row'], col');
      v := OneCell(f, l, x, y, Cell(ch, 15));
      OneCellIsPut(f, l, x, y, Cell(ch, 15));
    } else {
      v := OneCursor(f, l, x, y);
      OneCellIsPut(f, l, x, y, Cell(32, 7));
      assert OneCell(f, l, x, y, Cell(32, 7)).cells == v.cells;
      SpaceIsPaper(f, 7, row, col);
      SpaceIsPaper(f, 7, row', col');
    }
  }

  /**
   * No run of calls on a blank console asks for what no memory can show exactly when the screen
   * is drawable; when it is not, one call already does.
   */
  lemma DrawableExact(f: Font, l: Layout, pitch: U32, width: nat, height: nat)
    requires FontOk(f) && InScreen(l, width, height)
    ensures Drawable(f, l, pitch, width, height) <==>
              forall strokes :: Consistent(Struck(BlankConsole(f, l), strokes), pitch, width, height)
    ensures !Drawable(f, l, pitch, width, height) ==>
              exists s :: !Consistent(After(BlankConsole(f, l), s), pitch, width, height)
  {
    hide Consistent, Spares, InConsole, After;
    if Drawable(f, l, pitch, width, height) {
      forall strokes
        ensures Consistent(Struck(BlankConsole(f, l), strokes), pitch, width, height)
      {
        DrawableIsConsistent(Struck(BlankConsole(f, l), strokes), pitch, width, height);
      }
    } else {
      var r, c, r', c' :| 0 <= r < height && 0 <= c < width && 0 <= r' < height && 0 <= c' < width && (r, c) != (r', c')
                          && InConsole(l, r, c) && !Spares(f, l, pitch, r, c, r', c');
      var v := SpoiledScene(f, l, pitch, width, height, r, c, r', c');
      var s :| v == After(BlankConsole(f, l), s);
      assert Struck(BlankConsole(f, l), [s]) == After(Struck(BlankConsole(f, l), []), s);
    }
  }

  /** A screen no two of whose pixels share a byte is drawable. */
  lemma ApartIsDrawable(f: Font, l: Layout, pitch: U32, width: nat, height: nat)
    requires FontOk(f) && l.scale > 0 && PixelsApart(pitch, width, height)
    ensures Drawable(f, l, pitch, width, height)
  {
    hide At, GlyphRow, GlyphCol;
    forall r, c, r', c' |
      0 <= r < height && 0 <= c < width && 0 <= r' < height && 0 <= c' < width && (r, c) != (r', c') && InConsole(l, r, c)
      ensures Spares(f, l, pitch, r, c, r', c')
    {
      assert Apart(At(pitch, r, c), At(pitch, r', c'));
    }
  }

  // ---- Screens that are not, and one that is ------------------------------------------------------

  /** A screen 2^30 pixels wide is accepted with no distance between its lines at all. */
  lemma LinesOnTop()
    ensures Accepts(0, 0x4000_0000, FONT_HEIGHT, 32)
    ensures !PixelsApart(0, 0x4000_0000, FONT_HEIGHT)
  {
    LinesApartNeeded(0, 0x4000_0000, FONT_HEIGHT, 1);
  }

  /** A screen so high that its line 2^27 is line 0 again. */
  lemma LineWrapsOntoFirst()
    ensures Accepts(32, 8, 0x800_0001, 32)
    ensures At(32, 0x800_0000, 0) == At(32, 0, 0) && !PixelsApart(32, 8, 0x800_0001)
  {
    assert !Apart(At(32, 0, 0), At(32, 0x800_0000, 0));
  }

  /** Addresses that wrap need not collide: these lines come down in the space between the others. */
  lemma WrapsIntoTheGaps()
    ensures Accepts(0x8000_0064, 8, FONT_HEIGHT, 32)
    ensures !InPlace(0x8000_0064, 8, FONT_HEIGHT) && PixelsApart(0x8000_0064, 8, FONT_HEIGHT)
  {
    InPlaceExact(0x8000_0064, 8, FONT_HEIGHT);
    PixelsApartExact(0x8000_0064, 8, FONT_HEIGHT);
    forall d | 0 < d < FONT_HEIGHT
      ensures 32 <= Behind(0x8000_0064, d) <= TWO32 - 32
    {
      RestIs(d * 0x8000_0064, d / 2, d % 2 * 0x8000_0000 + d * 100);
    }
    hide PixelsApart, InPlace, Behind;
  }

  lemma RestIs(x: int, k: int, r: int)
    requires x == k * TWO32 + r && 0 <= r < TWO32
    ensures x % TWO32 == r
  {
  }

  /**
   * With its lines on top of each other, a screen of two rows of cells shows no white cell in the
   * first: the cell below it would have to be white and black at once.
   */
  lemma OneCellSpoils(f: Font, mem: seq<Octet>)
    requires FontOk(f)
    ensures Accepts(0, 0x4000_0000, 32, 32)
    ensures var l := Layout(1, COLS, 2, 0x1FFF_FEC0, 0);
            InScreen(l, 0x4000_0000, 32) && !ShownBy(mem, After(BlankConsole(f, l), Put(0, 0, Cell(32, 0xF7))), 0, 0x4000_0000, 32)
  {
    var l := Layout(1, COLS, 2, 0x1FFF_FEC0, 0);
    var v := OneCell(f, l, 0, 0, Cell(32, 0xF7));
    var c := l.originX;
    OneCellIsPut(f, l, 0, 0, Cell(32, 0xF7));
    WhiteCell(f, l, 0, 0, 0, c);
    WhiteCell(f, l, 0, 0, FONT_HEIGHT, c);
    assert At(0, 0, c) == At(0, FONT_HEIGHT, c);
    assert Painted(v, 0, c) == 0xFF_FFFF && Painted(v, FONT_HEIGHT, c) == 0;
    hide At, Painted, Peek;
    assert Peek(mem, At(0, 0, c)) == Peek(mem, At(0, FONT_HEIGHT, c)) <== |mem| == TWO32;
  }

  /** A screen whose far lines share bytes, all of them in the border, is drawable all the same. */
  lemma BordersMayShare(f: Font)
    requires FontOk(f)
    ensures var l := Layout(1, 1, ROWS, 0, 67108664);
            && InScreen(l, 8, 0x800_0001) && !PixelsApart(32, 8, 0x800_0001)
            && Drawable(f, l, 32, 8, 0x800_0001)
  {
    LineWrapsOntoFirst();
    var l := Layout(1, 1, ROWS, 0, 67108664);
    hide Alike;
    forall r, c, r', c' |
      0 <= r < 0x800_0001 && 0 <= c < 8 && 0 <= r' < 0x800_0001 && 0 <= c' < 8 && (r, c) != (r', c') && InConsole(l, r, c)
      ensures Spares(f, l, 32, r, c, r', c')
    {
      NearLines(r, c, r', c');
    }
  }

  lemma NearLines(r: int, c: int, r': int, c': int)
    requires 67108664 <= r < 67109064 && 0 <= r' <= 0x800_0000 && 0 <= c < 8 && 0 <= c' < 8 && (r, c) != (r', c')
    ensures Apart(At(32, r, c), At(32, r', c'))
  {
    var d := 32 * (r' - r) + 4 * (c' - c);
    SameRest(r' * 32 + c' * 4, r * 32 + c * 4, 0, d);
    SmallDistance(d);
  }

  // ---- The display ----------------------------------------------------------------------------

  class Display {
    const font: Font
    const l: Layout
    const mem: array<Octet>
    const pitch: U32
    const width: U32
    const height: U32
    const shadow: array<Cell>
    var cursorX: nat
    var cursorY: nat
    var shown: bool

    ghost predicate Shaped()
      reads this
    {
      && FontOk(font) && InScreen(l, width, height) && mem.Length == TWO32 && shadow.Length == ROWS * COLS
      && (shown ==> cursorX < l.cols && cursorY < l.rows)
    }

    /** What the shadow says the screen should show. */
    ghost function Now(): Scene
      reads this, shadow
    {
      Scene(font, l, shadow[..], cursorX, cursorY, shown)
    }

    /** The pixel at a line and column, as the memory has it. */
    ghost function Pixel(py: int, px: int): U32
      requires mem.Length == TWO32
      reads mem
    {
      Peek(mem[..], At(pitch, py, px))
    }

    /** The screen is what drawing everything from scratch would give. */
    ghost predicate Valid()
      reads this, shadow, mem
    {
      && Shaped()
      && forall r, c :: 0 <= r < height && 0 <= c < width ==> Pixel(r, c) == Painted(Now(), r, c)
    }

    /** The scene is one of this console's. */
    ghost predicate Ours(v: Scene) { SceneOk(v) && v.font == font && v.l == l }

    /** Pixels that were right for a scene still are. */
    twostate predicate Kept(v: Scene)
      requires mem.Length == TWO32 && SceneOk(v)
      reads mem
    {
      forall r, c :: 0 <= r < height && 0 <= c < width && old(Pixel(r, c)) == Painted(v, r, c) ==> Pixel(r, c) == Painted(v, r, c)
    }

    ghost predicate Can(v: Scene)
      requires SceneOk(v)
    {
      Consistent(v, pitch, width, height)
    }

    /** The whole screen to black, which is what the shadow, blank, says of it, on every screen. */
    constructor (font: Font, l: Layout, mem: array<Octet>, pitch: U32, width: U32, height: U32)
      requires FontOk(font) && InScreen(l, width, height) && mem.Length == TWO32
      modifies mem
      ensures Valid() && this.font == font && this.l == l && !shown
      ensures fresh(shadow) && Now() == BlankConsole(font, l)
      ensures this.mem == mem && this.pitch == pitch && this.width == width && this.height == height
    {
      this.font, this.l, this.mem := font, l, mem;
      this.pitch, this.width, this.height := pitch, width, height;
      shadow := new Cell[ROWS * COLS](_ => Cell(32, 7));
      cursorX, cursorY, shown := 0, 0, false;
      new;
      hide Painted, Peek, Consistent;
      ghost var v := Now();
      forall r, c
        ensures Painted(v, r, c) == 0
      {
        BlankScene(v, r, c);
      }
      BlackIsConsistent(v, pitch, width, height);
      for y := 0 to height
        modifies mem
        invariant forall r, c :: 0 <= r < y && 0 <= c < width ==> Pixel(r, c) == Painted(v, r, c)
      {
        PaintRun(y, 0, width, 0, v);
      }
    }

    /** Stores one pixel of a scene, and spoils no other when the scene is consistent. */
    method SetPixel(py: nat, px: nat, value: U32, ghost v: Scene)
      requires Shaped() && Ours(v) && py < height && px < width && Painted(v, py, px) == value
      modifies mem
      ensures mem[..] == Poke(old(mem[..]), At(pitch, py, px), value) && Pixel(py, px) == value
      ensures Can(v) ==> Kept(v)
    {
      hide At, ByteAt, Part, Peek, Painted, Agree;
      ghost var before := mem[..];
      var a := At(pitch, py, px);
      mem[ByteAt(a, 0)] := Part(value, 0);
      mem[ByteAt(a, 1)] := Part(value, 1);
      mem[ByteAt(a, 2)] := Part(value, 2);
      mem[ByteAt(a, 3)] := Part(value, 3);
      assert mem[..] == Poke(before, a, value);
      hide Poke;
      PeekPoked(before, a, value);
      if Can(v) {
        forall r, c | 0 <= r < height && 0 <= c < width && old(Pixel(r, c)) == Painted(v, r, c)
          ensures Pixel(r, c) == Painted(v, r, c)
        {
          PokeSpares(before, a, value, At(pitch, r, c), Painted(v, r, c));
        }
      }
    }

    method PaintRun(py: nat, from: nat, to: nat, value: U32, ghost v: Scene)
      requires Shaped() && Ours(v) && py < height && from <= to <= width
      requires forall c :: from <= c < to ==> Painted(v, py, c) == value
      modifies mem
      ensures Can(v) ==> Kept(v) && forall c :: from <= c < to ==> Pixel(py, c) == Painted(v, py, c)
    {
      hide Can, Pixel, Poke, Painted;
      for px := from to to
        invariant Can(v) ==> Kept(v) && forall c :: from <= c < px ==> Pixel(py, c) == Painted(v, py, c)
      {
        SetPixel(py, px, value, v);
      }
    }

    /** One line of a glyph: eight runs of a pixel's width each. */
    method PaintLine(py: nat, x: nat, cell: Cell, row: nat, ghost v: Scene)
      requires Shaped() && Ours(v) && py < height && x < l.cols && row < FONT_HEIGHT
      requires forall c :: x * FONT_WIDTH <= GlyphCol(l, c) < (x + 1) * FONT_WIDTH ==>
                 Painted(v, py, c) == CellPixel(font, cell, row, GlyphCol(l, c) - x * FONT_WIDTH)
      modifies mem
      ensures Can(v) ==>
                && Kept(v)
                && forall c :: 0 <= c < width && x * FONT_WIDTH <= GlyphCol(l, c) < (x + 1) * FONT_WIDTH ==>
                     Pixel(py, c) == Painted(v, py, c)
    {
      hide Can, Pixel, Painted, GlyphCol, Bit, Ink, Paper, RunStart;
      var bits := GlyphOf(font, cell.ch)[row];
      for col := 0 to FONT_WIDTH
        invariant Can(v) ==>
                    && Kept(v)
                    && forall c :: 0 <= c < width && x * FONT_WIDTH <= GlyphCol(l, c) < x * FONT_WIDTH + col ==>
                         Pixel(py, c) == Painted(v, py, c)
      {
        RunOf(l, width, x, col);
        var value := if Bit(bits, col) then Ink(cell) else Paper(cell);
        forall c | RunStart(l, x, col) <= c < RunStart(l, x, col + 1)
          ensures Painted(v, py, c) == value
        {
          assert GlyphCol(l, c) == x * FONT_WIDTH + col;
        }
        PaintRun(py, RunStart(l, x, col), RunStart(l, x, col + 1), value, v);
      }
    }

    /** One row of a glyph: as many lines as the scale. */
    method PaintGlyphRow(x: nat, y: nat, cell: Cell, row: nat, ghost v: Scene)
      requires Shaped() && Ours(v) && x < l.cols && y < l.rows && row < FONT_HEIGHT && HasCell(v, x, y, cell)
      modifies mem
      ensures Can(v) ==>
                && Kept(v)
                && forall r, c :: 0 <= r < height && 0 <= c < width && InCell(l, r, c, x, y) && GlyphRow(l, r) == y * FONT_HEIGHT + row ==>
                     Pixel(r, c) == Painted(v, r, c)
    {
      hide Can, Pixel, Painted, GlyphCol, GlyphRow, CellPixel, LineStart;
      LinesOf(l, height, y, row);
      for sy := 0 to l.scale
        invariant Can(v) ==>
                    && Kept(v)
                    && forall r, c :: LineStart(l, y, row) <= r < LineStart(l, y, row) + sy && 0 <= c < width && InCell(l, r, c, x, y) ==>
                         Pixel(r, c) == Painted(v, r, c)
      {
        var py := LineStart(l, y, row) + sy;
        assert GlyphRow(l, py) == y * FONT_HEIGHT + row;
        forall c | x * FONT_WIDTH <= GlyphCol(l, c) < (x + 1) * FONT_WIDTH
          ensures Painted(v, py, c) == CellPixel(font, cell, row, GlyphCol(l, c) - x * FONT_WIDTH)
        {
          assert InCell(l, py, c, x, y);
        }
        PaintLine(py, x, cell, row, v);
      }
    }

    /** The scene shows a cell at a place, with no cursor over it. */
    ghost predicate HasCell(v: Scene, x: nat, y: nat, cell: Cell)
      requires SceneOk(v) && v.l == l && v.font == font
    {
      forall r, c :: InCell(l, r, c, x, y) ==>
        Painted(v, r, c) == CellPixel(font, cell, GlyphRow(l, r) - y * FONT_HEIGHT, GlyphCol(l, c) - x * FONT_WIDTH)
    }

    /** Draws a cell with no reference to what was there before. */
    method BlitCell(x: nat, y: nat, cell: Cell, ghost v: Scene)
      requires Shaped() && Ours(v) && x < l.cols && y < l.rows && HasCell(v, x, y, cell)
      modifies mem
      ensures Can(v) ==>
                && Kept(v)
                && forall r, c :: 0 <= r < height && 0 <= c < width && InCell(l, r, c, x, y) ==> Pixel(r, c) == Painted(v, r, c)
    {
      hide Can, Pixel, Painted, GlyphCol, GlyphRow, HasCell;
      for row := 0 to FONT_HEIGHT
        invariant Can(v) ==>
                    && Kept(v)
                    && forall r, c :: 0 <= r < height && 0 <= c < width && InCell(l, r, c, x, y) && GlyphRow(l, r) < y * FONT_HEIGHT + row ==>
                         Pixel(r, c) == Painted(v, r, c)
      {
        PaintGlyphRow(x, y, cell, row, v);
      }
    }

    /** One glyph row of a cell in a single colour. */
    method PaintBar(x: nat, y: nat, row: nat, value: U32, ghost v: Scene)
      requires Shaped() && Ours(v) && x < l.cols && y < l.rows && row < FONT_HEIGHT
      requires forall r, c :: InCell(l, r, c, x, y) && GlyphRow(l, r) == y * FONT_HEIGHT + row ==> Painted(v, r, c) == value
      modifies mem
      ensures Can(v) ==>
                && Kept(v)
                && forall r, c :: 0 <= r < height && 0 <= c < width && InCell(l, r, c, x, y) && GlyphRow(l, r) == y * FONT_HEIGHT + row ==>
                     Pixel(r, c) == Painted(v, r, c)
    {
      hide Can, Pixel, Painted, GlyphCol, GlyphRow, LineStart, RunStart;
      LinesOf(l, height, y, row);
      WholeRun(l, width, x);
      for sy := 0 to l.scale
        invariant Can(v) ==>
                    && Kept(v)
                    && forall r, c :: LineStart(l, y, row) <= r < LineStart(l, y, row) + sy && 0 <= c < width && InCell(l, r, c, x, y) ==>
                         Pixel(r, c) == Painted(v, r, c)
      {
        var py := LineStart(l, y, row) + sy;
        assert GlyphRow(l, py) == y * FONT_HEIGHT + row;
        forall c | RunStart(l, x, 0) <= c < RunStart(l, x, FONT_WIDTH)
          ensures Painted(v, py, c) == value
        {
          assert x * FONT_WIDTH <= GlyphCol(l, c) < (x + 1) * FONT_WIDTH;
          assert InCell(l, py, c, x, y);
        }
        PaintRun(py, RunStart(l, x, 0), RunStart(l, x, FONT_WIDTH), value, v);
      }
    }

    /** Paints the cursor over the two bottom rows of a cell. */
    method PaintCursor(x: nat, y: nat, ghost v: Scene)
      requires Shaped() && Ours(v) && x < l.cols && y < l.rows
      requires forall r, c :: InCell(l, r, c, x, y) && GlyphRow(l, r) - y * FONT_HEIGHT >= FONT_HEIGHT - 2 ==>
                 Painted(v, r, c) == Ink(shadow[y * COLS + x])
      modifies mem
      ensures Can(v) ==>
                && Kept(v)
                && forall r, c :: 0 <= r < height && 0 <= c < width && InCell(l, r, c, x, y) && GlyphRow(l, r) - y * FONT_HEIGHT >= FONT_HEIGHT - 2 ==>
                     Pixel(r, c) == Painted(v, r, c)
    {
      hide Can, Pixel, Painted, GlyphCol, GlyphRow, Ink;
      for row := FONT_HEIGHT - 2 to FONT_HEIGHT
        invariant Can(v) ==>
                    && Kept(v)
                    && forall r, c :: 0 <= r < height && 0 <= c < width && InCell(l, r, c, x, y) && FONT_HEIGHT - 2 <= GlyphRow(l, r) - y * FONT_HEIGHT < row ==>
                         Pixel(r, c) == Painted(v, r, c)
      {
        PaintBar(x, y, row, Ink(shadow[y * COLS + x]), v);
      }
    }

    /** Draws the cursor of the current scene where everything but the cursor is right. */
    method ShowCursor()
      requires Shaped() && shown
      modifies mem
      ensures Can(Now()) && (forall r, c :: 0 <= r < height && 0 <= c < width ==> old(Pixel(r, c)) == Painted(Now().(shown := false), r, c)) ==>
                Valid()
    {
      hide Can, Pixel, Painted, GlyphCol, GlyphRow, Ink;
      ghost var v := Now();
      forall r, c
        ensures InCell(l, r, c, cursorX, cursorY) && GlyphRow(l, r) - cursorY * FONT_HEIGHT >= FONT_HEIGHT - 2 ==>
                  Painted(v, r, c) == Ink(shadow[cursorY * COLS + cursorX])
        ensures !(InCell(l, r, c, cursorX, cursorY) && GlyphRow(l, r) - cursorY * FONT_HEIGHT >= FONT_HEIGHT - 2) ==>
                  Painted(v, r, c) == Painted(v.(shown := false), r, c)
      {
        CursorOver(v, r, c);
      }
      PaintCursor(cursorX, cursorY, v);
    }

    /** The last cell put at a place is the one the shadow has there; a cell off the console is ignored. On a drawable screen the memory shows it. */
    method PutCell(x: nat, y: nat, cell: Cell)
      requires Shaped()
      modifies shadow, mem
      ensures Shaped()
      ensures Now() == After(old(Now()), Put(x, y, cell))
      ensures old(Valid()) && Drawable(font, l, pitch, width, height) ==> Valid()
    {
      hide Consistent, Pixel, Painted, Drawable, GlyphCol, GlyphRow, CellPixel, Ink;
      if x >= l.cols || y >= l.rows || shadow[y * COLS + x] == cell {
        return;
      }
      ghost var was := Now();
      shadow[y * COLS + x] := cell;
      ghost var here := shown && x == cursorX && y == cursorY;
      ghost var v := Now().(shown := shown && !here);
      forall r, c
        ensures InCell(l, r, c, x, y) ==>
                  Painted(v, r, c) == CellPixel(font, cell, GlyphRow(l, r) - y * FONT_HEIGHT, GlyphCol(l, c) - x * FONT_WIDTH)
        ensures !InCell(l, r, c, x, y) ==> Painted(v, r, c) == Painted(was, r, c)
      {
        CellPut(was, v, x, y, cell, r, c);
      }
      BlitCell(x, y, cell, v);
      if Drawable(font, l, pitch, width, height) {
        DrawableIsConsistent(v, pitch, width, height);
        DrawableIsConsistent(Now(), pitch, width, height);
      }
      if shown && x == cursorX && y == cursorY {
        ShowCursor();
      }
    }

    /** Moves the cursor, or hides it when asked for a place off the console. On a drawable screen the memory shows it. */
    method SetCursor(x: nat, y: nat)
      requires Shaped()
      modifies this, mem
      ensures Shaped() && Now() == After(old(Now()), Point(x, y))
      ensures old(Valid()) && Drawable(font, l, pitch, width, height) ==> Valid()
    {
      hide Consistent, Pixel, Painted, Drawable, GlyphCol, GlyphRow, CellPixel, Ink;
      if shown {
        HideCursor();
      }
      if x >= l.cols || y >= l.rows {
        return;
      }
      ghost var was := Now();
      cursorX, cursorY, shown := x, y, true;
      forall r, c
        ensures Painted(Now().(shown := false), r, c) == Painted(was, r, c)
      {
        HiddenAnywhere(was, Now().(shown := false), r, c);
      }
      if Drawable(font, l, pitch, width, height) {
        DrawableIsConsistent(Now(), pitch, width, height);
      }
      ShowCursor();
    }

    /** Takes the cursor away by redrawing the cell it was on. */
    method HideCursor()
      requires Shaped() && shown
      modifies this`shown, mem
      ensures Shaped() && !shown
      ensures old(Valid()) && Drawable(font, l, pitch, width, height) ==> Valid()
    {
      hide Consistent, Pixel, Painted, Drawable, GlyphCol, GlyphRow, CellPixel, Ink;
      ghost var was, v := Now(), Now().(shown := false);
      var cell := shadow[cursorY * COLS + cursorX];
      forall r, c
        ensures InCell(l, r, c, cursorX, cursorY) ==>
                  Painted(v, r, c) == CellPixel(font, cell, GlyphRow(l, r) - cursorY * FONT_HEIGHT, GlyphCol(l, c) - cursorX * FONT_WIDTH)
        ensures !InCell(l, r, c, cursorX, cursorY) ==> Painted(v, r, c) == Painted(was, r, c)
      {
        CellPut(was, v, cursorX, cursorY, cell, r, c);
      }
      BlitCell(cursorX, cursorY, cell, v);
      if Drawable(font, l, pitch, width, height) {
        DrawableIsConsistent(v, pitch, width, height);
      }
      shown := false;
    }

    /** Whatever is drawn, in whatever order, a drawable screen shows what the shadow says. */
    method Draw(strokes: seq<Stroke>)
      requires Shaped()
      modifies this, shadow, mem
      ensures Shaped() && Now() == Struck(old(Now()), strokes)
      ensures old(Valid()) && Drawable(font, l, pitch, width, height) ==> Valid()
    {
      hide Drawable, Painted, Pixel, After;
      ghost var was := Now();
      for i := 0 to |strokes|
        invariant Shaped() && Now() == Struck(was, strokes[..i])
        invariant old(Valid()) && Drawable(font, l, pitch, width, height) ==> Valid()
      {
        assert strokes[..i + 1][..i] == strokes[..i];
        match strokes[i]
        case Put(x, y, cell) => PutCell(x, y, cell);
        case Point(x, y) => SetCursor(x, y);
      }
      assert strokes[..|strokes|] == strokes;
    }
  }

  /** A pixel's cell is the one it is in. */
  lemma InItsCell(l: Layout, py: int, px: int, x: nat, y: nat)
    requires l.scale > 0 && x < l.cols && y < l.rows
    ensures InCell(l, py, px, x, y) <==> InConsole(l, py, px) && GlyphRow(l, py) / FONT_HEIGHT == y && GlyphCol(l, px) / FONT_WIDTH == x
    ensures InCell(l, py, px, x, y) ==>
              GlyphRow(l, py) % FONT_HEIGHT == GlyphRow(l, py) - y * FONT_HEIGHT && GlyphCol(l, px) % FONT_WIDTH == GlyphCol(l, px) - x * FONT_WIDTH
  {
    hide GlyphRow, GlyphCol;
  }

  /** A scene with one cell exchanged, the cursor off it. */
  lemma CellPut(was: Scene, v: Scene, x: nat, y: nat, cell: Cell, py: int, px: int)
    requires SceneOk(was) && SceneOk(v) && v.font == was.font && v.l == was.l && x < v.l.cols && y < v.l.rows
    requires v.cells == was.cells[y * COLS + x := cell] && v.cursorX == was.cursorX && v.cursorY == was.cursorY
    requires v.shown == (was.shown && !(was.cursorX == x && was.cursorY == y))
    ensures InCell(v.l, py, px, x, y) ==>
              Painted(v, py, px) == CellPixel(v.font, cell, GlyphRow(v.l, py) - y * FONT_HEIGHT, GlyphCol(v.l, px) - x * FONT_WIDTH)
    ensures !InCell(v.l, py, px, x, y) ==> Painted(v, py, px) == Painted(was, py, px)
  {
    InItsCell(v.l, py, px, x, y);
    hide GlyphRow, GlyphCol, CellPixel, Ink, InCell;
    if InConsole(v.l, py, px) {
      SameIndex(GlyphRow(v.l, py) / FONT_HEIGHT, GlyphCol(v.l, px) / FONT_WIDTH, y, x);
    }
  }

  /** Cells are stored in different places. */
  lemma SameIndex(y: nat, x: nat, y': nat, x': nat)
    requires x < COLS && x' < COLS
    ensures y * COLS + x == y' * COLS + x' <==> y == y' && x == x'
  {
  }

  /** What the cursor changes. */
  lemma CursorOver(v: Scene, py: int, px: int)
    requires SceneOk(v) && v.shown && v.cursorX < v.l.cols && v.cursorY < v.l.rows
    ensures var over := InCell(v.l, py, px, v.cursorX, v.cursorY) && GlyphRow(v.l, py) - v.cursorY * FONT_HEIGHT >= FONT_HEIGHT - 2;
            Painted(v, py, px) == if over then Ink(v.cells[v.cursorY * COLS + v.cursorX]) else Painted(v.(shown := false), py, px)
  {
    InItsCell(v.l, py, px, v.cursorX, v.cursorY);
    hide GlyphRow, GlyphCol, CellPixel, Ink, InCell;
  }

  /** A hidden cursor shows nowhere. */
  lemma HiddenAnywhere(v: Scene, v': Scene, py: int, px: int)
    requires SceneOk(v) && !v.shown && v' == v.(cursorX := v'.cursorX, cursorY := v'.cursorY)
    ensures Painted(v', py, px) == Painted(v, py, px)
  {
    hide GlyphRow, GlyphCol, CellPixel, Ink;
  }

  lemma BlankScene(v: Scene, py: int, px: int)
    requires SceneOk(v) && !v.shown && forall i :: 0 <= i < ROWS * COLS ==> v.cells[i] == Cell(32, 7)
    ensures Painted(v, py, px) == 0
  {
    BlankIsBlack(v.font);
    hide GlyphRow, GlyphCol, CellPixel;
    if InConsole(v.l, py, px) {
      CellInside(v.l, py, px);
    }
  }

  lemma BlackIsConsistent(v: Scene, pitch: U32, width: nat, height: nat)
    requires SceneOk(v) && forall r: int, c: int :: Painted(v, r, c) == 0
    ensures Consistent(v, pitch, width, height)
  {
    hide Painted, Agree, At;
    forall r, c, r', c' | 0 <= r < height && 0 <= c < width && 0 <= r' < height && 0 <= c' < width
      ensures Agree(At(pitch, r, c), Painted(v, r, c), At(pitch, r', c'), Painted(v, r', c'))
    {
      NothingAgrees(At(pitch, r, c), At(pitch, r', c'));
    }
  }

  /** Where the lines of a glyph row start. */
  function LineStart(l: Layout, y: nat, row: nat): nat { l.originY + (y * FONT_HEIGHT + row) * l.scale }

  lemma LinesOf(l: Layout, height: nat, y: nat, row: nat)
    requires l.scale > 0 && y < l.rows && row < FONT_HEIGHT && l.originY + l.rows * (FONT_HEIGHT * l.scale) <= height
    ensures LineStart(l, y, row) + l.scale <= height
    ensures forall py: int {:trigger GlyphRow(l, py)} ::
      LineStart(l, y, row) <= py < LineStart(l, y, row) + l.scale <==> GlyphRow(l, py) == y * FONT_HEIGHT + row
  {
    hide GlyphRow;
    var k, s := y * FONT_HEIGHT + row, l.scale;
    RowsOf(l, k, k + 1);
    Distribute(k, 1, s);
    Regroup(l.rows, FONT_HEIGHT, s);
    AtMost(k + 1, l.rows * FONT_HEIGHT, s);
  }

  lemma WholeRun(l: Layout, width: nat, x: nat)
    requires l.scale > 0 && x < l.cols && l.originX + l.cols * (FONT_WIDTH * l.scale) <= width
    ensures RunStart(l, x, 0) <= RunStart(l, x, FONT_WIDTH) <= width
    ensures forall px: int {:trigger GlyphCol(l, px)} ::
      RunStart(l, x, 0) <= px < RunStart(l, x, FONT_WIDTH) <==> x * FONT_WIDTH <= GlyphCol(l, px) < (x + 1) * FONT_WIDTH
  {
    hide GlyphCol;
    var s := l.scale;
    ColumnsOf(l, x * FONT_WIDTH, (x + 1) * FONT_WIDTH);
    Distribute(x * FONT_WIDTH, FONT_WIDTH, s);
    Regroup(l.cols, FONT_WIDTH, s);
    AtMost((x + 1) * FONT_WIDTH, l.cols * FONT_WIDTH, s);
  }

  /** Where the pixels of a glyph column of a cell start. */
  function RunStart(l: Layout, x: nat, col: nat): nat { l.originX + x * FONT_WIDTH * l.scale + col * l.scale }

  /** The run of pixels a glyph column covers. */
  lemma RunOf(l: Layout, width: nat, x: nat, col: nat)
    requires l.scale > 0 && x < l.cols && col < FONT_WIDTH && l.originX + l.cols * (FONT_WIDTH * l.scale) <= width
    ensures RunStart(l, x, col) <= RunStart(l, x, col + 1) <= width
    ensures forall px: int {:trigger GlyphCol(l, px)} ::
      RunStart(l, x, col) <= px < RunStart(l, x, col + 1) <==> GlyphCol(l, px) == x * FONT_WIDTH + col
  {
    hide GlyphCol;
    var k, s := x * FONT_WIDTH + col, l.scale;
    ColumnsOf(l, k, k + 1);
    Distribute(x * FONT_WIDTH, col, s);
    Distribute(x * FONT_WIDTH, col + 1, s);
    Regroup(l.cols, FONT_WIDTH, s);
    AtMost(k + 1, l.cols * FONT_WIDTH, s);
  }

  lemma BlankIsBlack(f: Font)
    requires FontOk(f)
    ensures forall row, col {:trigger CellPixel(f, Cell(32, 7), row, col)} ::
      0 <= row < FONT_HEIGHT && 0 <= col < FONT_WIDTH ==> CellPixel(f, Cell(32, 7), row, col) == 0
  {
    forall row: nat, col: nat | row < FONT_HEIGHT && col < FONT_WIDTH
      ensures CellPixel(f, Cell(32, 7), row, col) == 0
    {
      assert GlyphOf(f, 32)[row] == 0;
      NoBits(col);
    }
  }

  lemma NoBits(col: nat)
    requires col < FONT_WIDTH
    ensures !Bit(0, col)
  {
  }

  /**
   * Takes over a framebuffer, or refuses it. The memory counts from the framebuffer's base,
   * which `present` says there is. The screen is then what the shadow says, and stays so under
   * every drawing exactly when it is drawable.
   */
  method UseFramebuffer(font: Font, present: bool, mem: array<Octet>, pitch: U32, width: U32, height: U32, bpp: nat)
    returns (status: Status, d: Display?)
    requires FontOk(font) && mem.Length == TWO32
    requires present && Accepts(pitch, width, height, bpp) ==> Stops(width, height)
    modifies mem
    ensures status == (if present && Accepts(pitch, width, height, bpp) then Ok else Inval) && (d != null <==> status == Ok)
    ensures status != Ok ==> mem[..] == old(mem[..])
    ensures d != null ==>
      && d.Valid() && d.font == font && d.mem == mem && d.pitch == pitch && d.width == width && d.height == height
      && d.Now() == BlankConsole(font, d.l)
      && (!Runaway(width, height) ==>
            d.l.cols > 0 && d.l.rows > 0 && (FitsAt(width, height, 1) ==> d.l.cols == COLS && d.l.rows == ROWS))
  {
    if !present || bpp != 32 || width < FONT_WIDTH || height < FONT_HEIGHT || pitch < width * 4 % TWO32 {
      return Inval, null;
    }
    var l := ComputeLayout(width, height);
    d := new Display(font, l, mem, pitch, width, height);
    status := Ok;
  }
}
