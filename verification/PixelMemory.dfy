/**
 * The bytes of a framebuffer's pixels, as drivers/console.c addresses them: four bytes each, at
 * a line and a column counted from the base in 32-bit arithmetic.
 */
module PixelMemory {
  import opened Common

  type Octet = x: nat | x < 256

  // ---- Where pixels lie ----------------------------------------------------------------------

  /** Where a pixel's four bytes start, counted from the base, in 32-bit arithmetic. */
  function At(pitch: U32, py: int, px: int): U32 { (py * pitch + px * 4) % TWO32 }

  /** Four bytes from each of two addresses share none, around the end of memory too. */
  predicate Apart(a: int, b: int) { 4 <= (b - a) % TWO32 <= TWO32 - 4 }

  /** Every pixel has its four bytes to itself. */
  ghost predicate PixelsApart(pitch: U32, width: nat, height: nat) {
    forall r, c, r', c' :: 0 <= r < height && 0 <= c < width && 0 <= r' < height && 0 <= c' < width && (r, c) != (r', c') ==>
      Apart(At(pitch, r, c), At(pitch, r', c'))
  }

  /** How far one line lies behind another, around the end of memory. */
  function Behind(pitch: U32, d: int): U32 { d * pitch % TWO32 }

  /** Any two lines are at least a line's length apart, either way round. */
  ghost predicate LinesApart(pitch: U32, width: nat, height: nat) {
    && 4 * width <= TWO32
    && forall d :: 0 < d < height ==> 4 * width <= Behind(pitch, d) <= TWO32 - 4 * width
  }

  /** The distance of two pixels, from that of their lines. */
  lemma Distance(pitch: U32, r: int, c: int, r': int, c': int)
    ensures (At(pitch, r', c') - At(pitch, r, c)) % TWO32 == (Behind(pitch, r' - r) + 4 * (c' - c)) % TWO32
  {
    var d := r' - r;
    Distribute(r, d, pitch);
    SameRest(r' * pitch + c' * 4, r * pitch + c * 4, d * pitch, 4 * (c' - c));
  }

  lemma SameRest(x: int, y: int, d: int, e: int)
    requires x - y == d + e
    ensures (x % TWO32 - y % TWO32) % TWO32 == (d % TWO32 + e) % TWO32
  {
  }

  lemma ApartBothWays(a: int, b: int)
    ensures Apart(a, b) == Apart(b, a)
  {
  }

  lemma OneLineApart(width: nat, k: int)
    requires 4 * width <= TWO32 && k != 0 && 0 < k + width < 2 * width
    ensures 4 <= (4 * k) % TWO32 <= TWO32 - 4
  {
  }

  /** Pixels of lines far enough apart are apart. */
  lemma LinesApartSuffice(pitch: U32, width: nat, height: nat, r: nat, c: nat, r': nat, c': nat)
    requires LinesApart(pitch, width, height)
    requires r <= r' < height && c < width && c' < width && (r, c) != (r', c')
    ensures Apart(At(pitch, r, c), At(pitch, r', c'))
  {
    hide At, Behind;
    Distance(pitch, r, c, r', c');
    if r == r' {
      NoLines(pitch);
      OneLineApart(width, c' - c);
    } else {
      assert 4 * width <= Behind(pitch, r' - r) <= TWO32 - 4 * width;
    }
  }

  lemma NoLines(pitch: U32)
    ensures Behind(pitch, 0) == 0
  {
  }

  /** Two pixels that share a byte, when two lines come too close. */
  lemma LinesApartNeeded(pitch: U32, width: nat, height: nat, d: nat)
    requires 0 < d < height && width > 0 && 4 * width <= TWO32
    requires !(4 * width <= Behind(pitch, d) <= TWO32 - 4 * width)
    ensures !PixelsApart(pitch, width, height)
  {
    hide At, Behind;
    var b := Behind(pitch, d);
    if b < 4 * width {
      Distance(pitch, 0, b / 4, d, 0);
      assert !Apart(At(pitch, 0, b / 4), At(pitch, d, 0));
    } else {
      var c := (TWO32 - b) / 4;
      Distance(pitch, 0, 0, d, c);
      assert !Apart(At(pitch, 0, 0), At(pitch, d, c));
    }
  }

  /** A line longer than memory runs into itself. */
  lemma LongLine(pitch: U32, width: nat, height: nat)
    requires 4 * width > TWO32 && height > 0
    ensures !PixelsApart(pitch, width, height)
  {
    assert At(pitch, 0, 0) == At(pitch, 0, TWO32 / 4);
    assert !Apart(At(pitch, 0, 0), At(pitch, 0, TWO32 / 4));
  }

  /** No two pixels share a byte exactly when any two lines are a line's length apart. */
  lemma PixelsApartExact(pitch: U32, width: nat, height: nat)
    requires width > 0 && height > 0
    ensures PixelsApart(pitch, width, height) <==> LinesApart(pitch, width, height)
  {
    hide At, Apart, Behind;
    if LinesApart(pitch, width, height) {
      forall r, c, r', c' | 0 <= r < height && 0 <= c < width && 0 <= r' < height && 0 <= c' < width && (r, c) != (r', c')
        ensures Apart(At(pitch, r, c), At(pitch, r', c'))
      {
        if r <= r' {
          LinesApartSuffice(pitch, width, height, r, c, r', c');
        } else {
          LinesApartSuffice(pitch, width, height, r', c', r, c);
          ApartBothWays(At(pitch, r, c), At(pitch, r', c'));
        }
      }
    } else if 4 * width > TWO32 {
      LongLine(pitch, width, height);
    } else {
      var d: nat :| 0 < d < height && !(4 * width <= Behind(pitch, d) <= TWO32 - 4 * width);
      LinesApartNeeded(pitch, width, height, d);
    }
  }

  /** Every pixel's bytes are where the screen shows them: at its line and column, with no wrap. */
  ghost predicate InPlace(pitch: U32, width: nat, height: nat) {
    forall r, c :: 0 <= r < height && 0 <= c < width ==> At(pitch, r, c) == r * pitch + c * 4 <= TWO32 - 4
  }

  /** No address wraps exactly when the last pixel ends within 4 GB. */
  lemma InPlaceExact(pitch: U32, width: nat, height: nat)
    requires width > 0 && height > 0
    ensures InPlace(pitch, width, height) <==> (height - 1) * pitch + 4 * width <= TWO32
  {
    if (height - 1) * pitch + 4 * width <= TWO32 {
      forall r, c | 0 <= r < height && 0 <= c < width
        ensures At(pitch, r, c) == r * pitch + c * 4 <= TWO32 - 4
      {
        AtMost(r, height - 1, pitch);
      }
    } else {
      assert InPlace(pitch, width, height) ==>
        At(pitch, height - 1, width - 1) == (height - 1) * pitch + (width - 1) * 4 <= TWO32 - 4;
    }
  }

  /**
   * Every pixel has four bytes of its own, where the screen shows them, exactly when a line
   * fits the distance between two lines and the last pixel ends within 4 GB.
   */
  lemma ScreenFits(pitch: U32, width: nat, height: nat)
    requires width > 0 && height > 1
    ensures PixelsApart(pitch, width, height) && InPlace(pitch, width, height)
            <==> 4 * width <= pitch && (height - 1) * pitch + 4 * width <= TWO32
  {
    hide PixelsApart, InPlace;
    PixelsApartExact(pitch, width, height);
    InPlaceExact(pitch, width, height);
    if (height - 1) * pitch + 4 * width <= TWO32 {
      assert Behind(pitch, 1) == pitch;
      forall d | 0 < d < height
        ensures pitch <= Behind(pitch, d) <= TWO32 - 4 * width
      {
        AtMost(d, height - 1, pitch);
        AtMost(1, d, pitch);
      }
    }
  }

  /** The address of a pixel's `k`-th byte. */
  function ByteAt(a: nat, k: nat): U32 { (a + k) % TWO32 }

  /** The value a pixel's four bytes spell. */
  function Peek(mem: seq<Octet>, a: U32): U32
    requires |mem| == TWO32
  {
    var b0: int, b1: int, b2: int, b3: int := mem[ByteAt(a, 0)], mem[ByteAt(a, 1)], mem[ByteAt(a, 2)], mem[ByteAt(a, 3)];
    b0 + 256 * b1 + 65536 * b2 + 16777216 * b3
  }

  function Poke(mem: seq<Octet>, a: U32, v: U32): (r: seq<Octet>)
    requires |mem| == TWO32
    ensures |r| == TWO32
  {
    mem[ByteAt(a, 0) := Part(v, 0)][ByteAt(a, 1) := Part(v, 1)][ByteAt(a, 2) := Part(v, 2)][ByteAt(a, 3) := Part(v, 3)]
  }

  lemma FourBytes(a: U32)
    ensures forall j, k {:trigger ByteAt(a, j), ByteAt(a, k)} :: 0 <= j < k < 4 ==> ByteAt(a, j) != ByteAt(a, k)
  {
  }

  lemma BytesApart(a: U32, b: U32, j: nat, k: nat)
    requires j < 4 && k < 4
    ensures Apart(a, b) ==> ByteAt(a, j) != ByteAt(b, k)
  {
    Near(a, b, j - k);
  }

  /** Addresses apart are not a few bytes apart. */
  lemma Near(a: U32, b: U32, d: int)
    requires -4 < d < 4
    ensures Apart(a, b) ==> (b - a - d) % TWO32 != 0
  {
  }

  /** Addresses not apart have a byte in common. */
  lemma BytesShared(a: U32, b: U32) returns (j: nat, k: nat)
    requires !Apart(a, b)
    ensures j < 4 && k < 4 && ByteAt(a, j) == ByteAt(b, k)
  {
    var d := (b - a) % TWO32;
    if d < 4 {
      j, k := d, 0;
    } else {
      j, k := 0, TWO32 - d;
    }
  }

  /** The byte a store leaves at one of its own addresses. */
  function Part(v: U32, k: nat): Octet {
    if k == 0 then v % 256 else if k == 1 then v / 256 % 256 else if k == 2 then v / 256 / 256 % 256 else v / 256 / 256 / 256
  }

  lemma PartsMake(v: U32)
    ensures Part(v, 0) + 256 * Part(v, 1) + 65536 * Part(v, 2) + 16777216 * Part(v, 3) == v
  {
    var a := v / 256;
    var b := a / 256;
    assert v == 256 * a + v % 256 && a == 256 * b + a % 256 && b == 256 * (b / 256) + b % 256;
  }

  lemma PokedParts(mem: seq<Octet>, a: U32, v: U32)
    requires |mem| == TWO32
    ensures var r := Poke(mem, a, v);
            && r[ByteAt(a, 0)] == Part(v, 0) && r[ByteAt(a, 1)] == Part(v, 1)
            && r[ByteAt(a, 2)] == Part(v, 2) && r[ByteAt(a, 3)] == Part(v, 3)
  {
    hide ByteAt, Part;
    FourBytes(a);
  }

  lemma PeekPoked(mem: seq<Octet>, a: U32, v: U32)
    requires |mem| == TWO32
    ensures Peek(Poke(mem, a, v), a) == v
  {
    hide ByteAt, Part, Poke;
    PokedParts(mem, a, v);
    PartsMake(v);
  }

  lemma PeekElsewhere(mem: seq<Octet>, a: U32, v: U32, b: U32)
    requires |mem| == TWO32 && Apart(a, b)
    ensures Peek(Poke(mem, a, v), b) == Peek(mem, b)
  {
    hide ByteAt, Apart;
    forall j: nat, k: nat | j < 4 && k < 4
      ensures ByteAt(a, j) != ByteAt(b, k)
    {
      BytesApart(a, b, j, k);
    }
  }

  /** On black memory a store of all ones shows at every address it is not apart from. */
  lemma PeekNearby(mem: seq<Octet>, a: U32, b: U32)
    requires |mem| == TWO32 && !Apart(a, b)
    requires forall i :: 0 <= i < TWO32 ==> mem[i] == 0
    ensures Peek(Poke(mem, a, TWO32 - 1), b) != Peek(mem, b)
  {
    hide ByteAt, Apart, Poke;
    var j, k := BytesShared(a, b);
    PokedParts(mem, a, TWO32 - 1);
    assert Poke(mem, a, TWO32 - 1)[ByteAt(b, k)] == 255;
  }

  /** Storing one pixel leaves every other as it was. */
  ghost predicate StoresAreLocal(pitch: U32, width: nat, height: nat) {
    forall mem: seq<Octet>, v: U32, r, c, r', c' ::
      |mem| == TWO32 && 0 <= r < height && 0 <= c < width && 0 <= r' < height && 0 <= c' < width && (r, c) != (r', c') ==>
        Peek(Poke(mem, At(pitch, r, c), v), At(pitch, r', c')) == Peek(mem, At(pitch, r', c'))
  }

  /** The screen can be drawn a pixel at a time exactly when no two pixels share a byte. */
  lemma LocalExactly(pitch: U32, width: nat, height: nat)
    ensures StoresAreLocal(pitch, width, height) <==> PixelsApart(pitch, width, height)
  {
    hide At, Apart, Peek, Poke;
    if PixelsApart(pitch, width, height) {
      forall mem: seq<Octet>, v: U32, r, c, r', c' |
        |mem| == TWO32 && 0 <= r < height && 0 <= c < width && 0 <= r' < height && 0 <= c' < width && (r, c) != (r', c')
        ensures Peek(Poke(mem, At(pitch, r, c), v), At(pitch, r', c')) == Peek(mem, At(pitch, r', c'))
      {
        PeekElsewhere(mem, At(pitch, r, c), v, At(pitch, r', c'));
      }
    } else {
      var r, c, r', c' :| 0 <= r < height && 0 <= c < width && 0 <= r' < height && 0 <= c' < width && (r, c) != (r', c')
                          && !Apart(At(pitch, r, c), At(pitch, r', c'));
      var black: seq<Octet> := seq(TWO32, _ => 0);
      PeekNearby(black, At(pitch, r, c), At(pitch, r', c'));
    }
  }

  // ---- Pictures ------------------------------------------------------------------------------

  lemma Digits(b0: nat, b1: nat, b2: nat, b3: nat)
    requires b0 < 256 && b1 < 256 && b2 < 256 && b3 < 256
    ensures var v := b0 + 256 * b1 + 65536 * b2 + 16777216 * b3;
            v < TWO32 && Part(v, 0) == b0 && Part(v, 1) == b1 && Part(v, 2) == b2 && Part(v, 3) == b3
  {
    var v := b0 + 256 * b1 + 65536 * b2 + 16777216 * b3;
    Rest(b1 + 256 * b2 + 65536 * b3, b0);
    Rest(b2 + 256 * b3, b1);
    Rest(b3, b2);
  }

  lemma Rest(q: nat, r: nat)
    requires r < 256
    ensures (256 * q + r) / 256 == q && (256 * q + r) % 256 == r
  {
  }

  /** A pixel has a value exactly when its bytes are the value's. */
  lemma PeekParts(mem: seq<Octet>, a: U32, v: U32)
    requires |mem| == TWO32
    ensures Peek(mem, a) == v <==>
            && mem[ByteAt(a, 0)] == Part(v, 0) && mem[ByteAt(a, 1)] == Part(v, 1)
            && mem[ByteAt(a, 2)] == Part(v, 2) && mem[ByteAt(a, 3)] == Part(v, 3)
  {
    Digits(mem[ByteAt(a, 0)], mem[ByteAt(a, 1)], mem[ByteAt(a, 2)], mem[ByteAt(a, 3)]);
    PartsMake(v);
    hide ByteAt, Part;
  }

  /** Where values at two addresses share a byte they agree on it. */
  ghost predicate Agree(a: U32, x: U32, b: U32, y: U32) {
    forall j: nat, k: nat :: j < 4 && k < 4 && ByteAt(a, j) == ByteAt(b, k) ==> Part(x, j) == Part(y, k)
  }

  lemma AgreeBothWays(a: U32, x: U32, b: U32, y: U32)
    ensures Agree(a, x, b, y) == Agree(b, y, a, x)
  {
    hide ByteAt, Part;
  }

  lemma AgreeWithItself(a: U32, x: U32)
    ensures Agree(a, x, a, x)
  {
    FourBytes(a);
    hide ByteAt, Part;
  }

  /** Two values one memory shows agree. */
  lemma ShownAgree(mem: seq<Octet>, a: U32, x: U32, b: U32, y: U32)
    requires |mem| == TWO32 && Peek(mem, a) == x && Peek(mem, b) == y
    ensures Agree(a, x, b, y)
  {
    PeekParts(mem, a, x);
    PeekParts(mem, b, y);
    hide ByteAt, Part, Peek;
    forall j: nat, k: nat | j < 4 && k < 4 && ByteAt(a, j) == ByteAt(b, k)
      ensures Part(x, j) == Part(y, k)
    {
      assert mem[ByteAt(a, j)] == Part(x, j) by {
        assert j == 0 || j == 1 || j == 2 || j == 3;
      }
      assert mem[ByteAt(b, k)] == Part(y, k) by {
        assert k == 0 || k == 1 || k == 2 || k == 3;
      }
    }
  }

  /** A store leaves a value it agrees with as it was. */
  lemma PokeSpares(mem: seq<Octet>, a: U32, x: U32, b: U32, y: U32)
    requires |mem| == TWO32 && Agree(a, x, b, y) && Peek(mem, b) == y
    ensures Peek(Poke(mem, a, x), b) == y
  {
    PeekParts(mem, b, y);
    PeekParts(Poke(mem, a, x), b, y);
    hide Peek, Part, ByteAt;
    PokeSparesByte(mem, a, x, b, y, 0);
    PokeSparesByte(mem, a, x, b, y, 1);
    PokeSparesByte(mem, a, x, b, y, 2);
    PokeSparesByte(mem, a, x, b, y, 3);
  }

  lemma PokeSparesByte(mem: seq<Octet>, a: U32, x: U32, b: U32, y: U32, k: nat)
    requires |mem| == TWO32 && Agree(a, x, b, y) && k < 4 && mem[ByteAt(b, k)] == Part(y, k)
    ensures Poke(mem, a, x)[ByteAt(b, k)] == Part(y, k)
  {
    hide ByteAt, Part;
    FourBytes(a);
    PokedParts(mem, a, x);
    if ByteAt(a, 0) == ByteAt(b, k) {
      assert Part(x, 0) == Part(y, k);
    } else if ByteAt(a, 1) == ByteAt(b, k) {
      assert Part(x, 1) == Part(y, k);
    } else if ByteAt(a, 2) == ByteAt(b, k) {
      assert Part(x, 2) == Part(y, k);
    } else if ByteAt(a, 3) == ByteAt(b, k) {
      assert Part(x, 3) == Part(y, k);
    }
  }

  /** Bytes shared by two addresses, by their distance. */
  lemma SharedByte(a: U32, b: U32, j: nat, k: nat)
    requires j < 4 && k < 4
    ensures ByteAt(a, j) == ByteAt(b, k) <==> (b - a) % TWO32 == (j - k) % TWO32
  {
    SameRemainder(a + j, b + k);
    SameRemainder(j - k, b - a);
  }

  lemma SameRemainder(x: int, y: int)
    ensures x % TWO32 == y % TWO32 <==> (x - y) % TWO32 == 0
  {
    var p, q := x / TWO32, y / TWO32;
    assert x == p * TWO32 + x % TWO32 && y == q * TWO32 + y % TWO32;
    var d := x % TWO32 - y % TWO32;
    assert x - y == (p - q) * TWO32 + d && 0 < d + TWO32 && d < TWO32;
    if (x - y) % TWO32 == 0 {
      var m := (x - y) / TWO32;
      assert d == (m - (p - q)) * TWO32;
      assert m - (p - q) == 0;
    }
  }

  /** A distance of at least four bytes either way, short of once around. */
  lemma SmallDistance(d: int)
    requires 4 <= d <= TWO32 - 4 || 4 <= -d <= TWO32 - 4
    ensures 4 <= d % TWO32 <= TWO32 - 4
  {
    if d < 0 {
      assert d % TWO32 == d + TWO32;
    }
  }

  // ---- Arithmetic ------------------------------------------------------------------------------

  lemma Distribute(a: int, b: int, s: int)
    ensures (a + b) * s == a * s + b * s
  {
  }

  lemma Regroup(a: int, b: int, s: int)
    ensures a * b * s == a * (b * s)
  {
  }

  lemma AtMost(a: int, b: int, s: nat)
    requires a <= b
    ensures a * s <= b * s
  {
  }
}
