/** The line rasterizer of gui/src/jarvis_gui.c. Coordinates are unbounded integers;
    ErrorFits bounds the error term so that 32 bits are enough for lines of the stated length. */
module Line {
  import opened Arith

  datatype Point = Point(x: int, y: int)

  // ----- The ideal line, rounded -----

  /** After `k` of `n` major steps the ideal minor offset is `k * m / n`; this is its
      nearest integer, halves upward. */
  function Rounded(n: nat, m: nat, k: nat): nat {
    if n == 0 then 0 else (2 * (k * m) + n) / (2 * n)
  }

  ghost predicate IsRounded(n: nat, m: nat, k: nat, j: nat) {
    2 * (j * n) <= 2 * (k * m) + n < 2 * (j * n) + 2 * n
  }

  lemma RoundedUnique(n: nat, m: nat, k: nat, j: nat)
    requires n > 0
    ensures IsRounded(n, m, k, j) <==> j == Rounded(n, m, k)
  {
    var a := 2 * (k * m) + n;
    assert forall q: int :: q * (2 * n) == 2 * (q * n);
    assert a == a / (2 * n) * (2 * n) + a % (2 * n);
    if IsRounded(n, m, k, j) { DivUnique(a, 2 * n, j, a - 2 * (j * n)); }
  }

  /** Within half a pixel of the ideal line along the minor axis. */
  lemma HalfPixel(n: nat, m: nat, k: nat)
    requires n > 0
    ensures -(n as int) <= 2 * (Rounded(n, m, k) * n - k * m) <= n
  {
    RoundedUnique(n, m, k, Rounded(n, m, k));
  }

  lemma RoundedEnds(n: nat, m: nat)
    requires n > 0
    ensures Rounded(n, m, 0) == 0 && Rounded(n, m, n) == m
  {
    RoundedUnique(n, m, 0, 0);
    assert m * n == n * m;
    RoundedUnique(n, m, n, m);
  }

  /** One major step moves the minor coordinate by one exactly when the doubled deviation
      after the step would fall to `-n` or below. */
  lemma RoundedStep(n: nat, m: nat, k: nat, j: nat)
    requires n > 0 && m <= n && IsRounded(n, m, k, j)
    ensures var e := j * n - k * m;
            IsRounded(n, m, k + 1, if 2 * (e - m) <= -(n as int) then j + 1 else j)
  {
    assert (k + 1) * m == k * m + m;
    assert (j + 1) * n == j * n + n;
  }

  // ----- The points of a line -----

  /** `sx` and `sy` of the source: a zero difference counts as negative. */
  function Sign(a: int, b: int): int { if a < b then 1 else -1 }

  function Steps(p: Point, q: Point): nat { Max(Abs(q.x - p.x), Abs(q.y - p.y)) }

  function LinePoint(p: Point, q: Point, k: nat): Point {
    var dx, dy := Abs(q.x - p.x), Abs(q.y - p.y);
    if dy <= dx then Point(p.x + Sign(p.x, q.x) * k, p.y + Sign(p.y, q.y) * Rounded(dx, dy, k))
    else Point(p.x + Sign(p.x, q.x) * Rounded(dy, dx, k), p.y + Sign(p.y, q.y) * k)
  }

  /** The line starts and ends exactly on its endpoints. */
  lemma LineEnds(p: Point, q: Point)
    ensures LinePoint(p, q, 0) == p && LinePoint(p, q, Steps(p, q)) == q
  {
    var dx, dy := Abs(q.x - p.x), Abs(q.y - p.y);
    if dy <= dx { if dx > 0 { RoundedEnds(dx, dy); } } else { RoundedEnds(dy, dx); }
  }

  /** Consecutive points are neighbours that differ by one along the major axis. */
  lemma LineIsConnected(p: Point, q: Point, k: nat)
    requires k < Steps(p, q)
    ensures var a, b := LinePoint(p, q, k), LinePoint(p, q, k + 1);
            Abs(b.x - a.x) <= 1 && Abs(b.y - a.y) <= 1 && Max(Abs(b.x - a.x), Abs(b.y - a.y)) == 1
  {
    var dx, dy := Abs(q.x - p.x), Abs(q.y - p.y);
    var n, m := Max(dx, dy), Min(dx, dy);
    RoundedUnique(n, m, k, Rounded(n, m, k));
    RoundedStep(n, m, k, Rounded(n, m, k));
    RoundedUnique(n, m, k + 1, Rounded(n, m, k));
    RoundedUnique(n, m, k + 1, Rounded(n, m, k) + 1);
  }

  ghost predicate Drawn(p: Point, q: Point, count: nat, c: Point) {
    exists k: nat :: k < count && LinePoint(p, q, k) == c
  }

  // ----- The framebuffer -----

  type Byte = b: nat | b < 256

  datatype Color = Color(r: Byte, g: Byte, b: Byte, a: Byte)

  /** Alpha, red, green and blue in one 32-bit word, from the high byte down. */
  function Pack(c: Color): (word: nat)
    ensures word < 0x1_0000_0000
  {
    ((c.a * 256 + c.r) * 256 + c.g) * 256 + c.b
  }

  /** The word holds each component in a byte of its own, as shifting and ORing leaves it. */
  lemma PackedBytes(c: Color)
    ensures var word := Pack(c);
            && word % 256 == c.b && word / 256 % 256 == c.g
            && word / 256 / 256 % 256 == c.r && word / 256 / 256 / 256 == c.a
  {
    LowByte(c.a, c.r);
    LowByte(c.a * 256 + c.r, c.g);
    LowByte((c.a * 256 + c.r) * 256 + c.g, c.b);
  }

  lemma LowByte(high: nat, low: Byte)
    ensures (high * 256 + low) / 256 == high && (high * 256 + low) % 256 == low
  {
    DivUnique(high * 256 + low, 256, high, low);
  }

  /** The two tests of the loop, which move along either axis or both. */
  method Move(x1: int, y1: int, err1: int, dx: int, dy: int, sx: int, sy: int,
              ghost p: Point, ghost q: Point, ghost k: nat)
    returns (x: int, y: int, err: int)
    requires k < Steps(p, q) && LinePoint(p, q, k) == Point(x1, y1) && err1 == ErrorAt(p, q, k)
    requires dx == Abs(q.x - p.x) && dy == -(Abs(q.y - p.y) as int) && sx == Sign(p.x, q.x) && sy == Sign(p.y, q.y)
    ensures LinePoint(p, q, k + 1) == Point(x, y) && err == ErrorAt(p, q, k + 1)
  {
    NextPoint(p, q, k);
    x, y, err := x1, y1, err1;
    var e2 := 2 * err;
    if e2 >= dy { err := err + dy; x := x + sx; }
    if e2 <= dx { err := err + dx; y := y + sy; }
  }

  /** The point that a cell shows on a screen `width` wide. */
  function At(cell: nat, width: nat): Point
    requires width > 0
  {
    Point(cell % width, cell / width)
  }

  /** The cell of one point has the colour, all others are as before. */
  ghost predicate Dotted(now: seq<nat>, before: seq<nat>, width: nat, at: Point, color: Color) {
    && |now| == |before|
    && forall c: nat | c < |now| && width > 0 :: now[c] == if At(c, width) == at then Pack(color) else before[c]
  }

  /** The cells of the first `count` line points have the colour, all others are as before. */
  ghost predicate Painted(now: seq<nat>, before: seq<nat>, width: nat, p: Point, q: Point, count: nat, color: Color) {
    && |now| == |before|
    && forall c: nat | c < |now| && width > 0 ::
         now[c] == if Drawn(p, q, count, At(c, width)) then Pack(color) else before[c]
  }

  lemma PaintedStep(now: seq<nat>, mid: seq<nat>, before: seq<nat>, width: nat,
                    p: Point, q: Point, count: nat, color: Color)
    requires Painted(mid, before, width, p, q, count, color) && Dotted(now, mid, width, LinePoint(p, q, count), color)
    ensures Painted(now, before, width, p, q, count + 1, color)
  {
    forall c: nat | c < |now| && width > 0
      ensures now[c] == if Drawn(p, q, count + 1, At(c, width)) then Pack(color) else before[c]
    {
      DrawnStep(p, q, count, At(c, width));
    }
  }

  /** What is shown is `pixels`; with double buffering drawing goes to `backBuffer`. */
  class Framebuffer {
    var pixels: array<nat>
    var backBuffer: array?<nat>
    var width: nat
    var height: nat
    var doubleBuffered: bool

    ghost predicate Valid()
      reads this
    {
      && pixels.Length == width * height
      && (doubleBuffered ==> backBuffer != null && backBuffer != pixels && backBuffer.Length == width * height)
      && (!doubleBuffered ==> backBuffer == null)
    }

    /** `framebuffer_create`, when all its allocations succeed. */
    constructor (width: nat, height: nat, doubleBuffered: bool)
      ensures Valid() && this.width == width && this.height == height && this.doubleBuffered == doubleBuffered
      ensures fresh(pixels) && forall c | 0 <= c < pixels.Length :: pixels[c] == 0
      ensures doubleBuffered ==> fresh(backBuffer) && forall c | 0 <= c < backBuffer.Length :: backBuffer[c] == 0
    {
      this.width, this.height, this.doubleBuffered := width, height, doubleBuffered;
      pixels := new nat[width * height](_ => 0);
      if doubleBuffered { backBuffer := new nat[width * height](_ => 0); } else { backBuffer := null; }
    }

    /** The contents of the buffer that is drawn on. */
    ghost function Canvas(): seq<nat>
      requires Valid()
      reads this, pixels, backBuffer
    {
      if doubleBuffered then backBuffer[..] else pixels[..]
    }

    method DrawPixel(x: int, y: int, color: Color)
      requires Valid()
      modifies pixels, backBuffer
      ensures doubleBuffered ==>
                pixels[..] == old(pixels[..]) && Dotted(backBuffer[..], old(backBuffer[..]), width, Point(x, y), color)
      ensures !doubleBuffered ==> Dotted(pixels[..], old(pixels[..]), width, Point(x, y), color)
    {
      PixelCell(x, y, width, height);
      if x < 0 || x >= width || y < 0 || y >= height { return; }
      var buffer := if doubleBuffered then backBuffer else pixels;
      buffer[y * width + x] := Pack(color);
    }

    /** The drawing of one more line point. */
    method DrawNext(x: int, y: int, color: Color,
                    ghost before: seq<nat>, ghost p: Point, ghost q: Point, ghost count: nat)
      requires Valid() && Painted(Canvas(), before, width, p, q, count, color) && LinePoint(p, q, count) == Point(x, y)
      modifies pixels, backBuffer
      ensures Painted(Canvas(), before, width, p, q, count + 1, color)
      ensures doubleBuffered ==> pixels[..] == old(pixels[..])
    {
      ghost var mid := Canvas();
      DrawPixel(x, y, color);
      PaintedStep(Canvas(), mid, before, width, p, q, count, color);
    }

    /** The loop ends after exactly max(|dx|, |dy|) steps, and the cells it leaves changed
        are exactly those of the rounded ideal line that lie inside the rectangle: on the back
        buffer with double buffering, when the screen stays as it is, else on the screen. */
    method DrawLine(fromX: int, fromY: int, x2: int, y2: int, color: Color) returns (count: nat)
      requires Valid()
      modifies pixels, backBuffer
      ensures count == Steps(Point(fromX, fromY), Point(x2, y2)) + 1
      ensures doubleBuffered ==>
                && pixels[..] == old(pixels[..])
                && Painted(backBuffer[..], old(backBuffer[..]), width, Point(fromX, fromY), Point(x2, y2), count, color)
      ensures !doubleBuffered ==>
                Painted(pixels[..], old(pixels[..]), width, Point(fromX, fromY), Point(x2, y2), count, color)
    {
      ghost var p, q, before := Point(fromX, fromY), Point(x2, y2), Canvas();
      var x1, y1 := fromX, fromY;
      var dx: int, sx: int := Abs(x2 - x1), if x1 < x2 then 1 else -1;
      var dy: int, sy: int := -(Abs(y2 - y1) as int), if y1 < y2 then 1 else -1;
      var err: int := dx + dy;
      count := 0;
      StartOfLine(p, q);
      while true
        invariant count <= Steps(p, q) && LinePoint(p, q, count) == Point(x1, y1) && err == ErrorAt(p, q, count)
        invariant Painted(Canvas(), before, width, p, q, count, color)
        invariant doubleBuffered ==> pixels[..] == old(pixels[..])
        decreases Steps(p, q) - count
      {
        DrawNext(x1, y1, color, before, p, q, count);
        ArrivedOnlyAtEnd(p, q, count);
        count := count + 1;
        if x1 == x2 && y1 == y2 { break; }
        x1, y1, err := Move(x1, y1, err, dx, dy, sx, sy, p, q, count - 1);
      }
    }

    /** `framebuffer_present`: the back buffer is copied to the screen. */
    method Present()
      requires Valid()
      modifies pixels
      ensures doubleBuffered ==> pixels[..] == backBuffer[..] == old(backBuffer[..])
      ensures !doubleBuffered ==> pixels[..] == old(pixels[..])
    {
      if !doubleBuffered || backBuffer == null { return; }
      for i := 0 to width * height
        invariant forall c | 0 <= c < i :: pixels[c] == backBuffer[c]
        invariant backBuffer[..] == old(backBuffer[..])
      {
        pixels[i] := backBuffer[i];
      }
    }

    /** With double buffering a line is not on the screen until the buffer is presented, and
        then it is, together with all that had been drawn before. */
    method DrawAndPresent(fromX: int, fromY: int, x2: int, y2: int, color: Color) returns (shown: seq<nat>, count: nat)
      requires Valid() && doubleBuffered
      modifies pixels, backBuffer
      ensures shown == old(pixels[..]) && count == Steps(Point(fromX, fromY), Point(x2, y2)) + 1
      ensures Painted(pixels[..], old(backBuffer[..]), width, Point(fromX, fromY), Point(x2, y2), count, color)
    {
      count := DrawLine(fromX, fromY, x2, y2, color);
      shown := pixels[..];
      Present();
    }
  }

  /** The cell that shows a point: `y * width + x` if the point is inside, none otherwise. */
  lemma PixelCell(x: int, y: int, width: nat, height: nat)
    ensures 0 <= x < width && 0 <= y < height ==> 0 <= y * width + x < width * height
    ensures forall c: nat | c < width * height && width > 0 ::
              (c % width == x && c / width == y) <==> (0 <= x < width && 0 <= y < height && c == y * width + x)
  {
    if 0 <= x < width && 0 <= y < height { MulStrict(y, height, width); }
    forall c: nat | c < width * height && width > 0
      ensures (c % width == x && c / width == y) <==> (0 <= x < width && 0 <= y < height && c == y * width + x)
    {
      QuotientBelow(c, width, height);
      if 0 <= x < width && c == y * width + x { DivUnique(c, width, y, x); }
    }
  }

  lemma DrawnStep(p: Point, q: Point, count: nat, c: Point)
    ensures Drawn(p, q, count + 1, c) <==> Drawn(p, q, count, c) || c == LinePoint(p, q, count)
  {
    if Drawn(p, q, count, c) {
      var k: nat :| k < count && LinePoint(p, q, k) == c;
      assert k < count + 1 && LinePoint(p, q, k) == c;
    }
  }

  /** Numbers of moves along x and y after `k` iterations. */
  function MovesX(p: Point, q: Point, k: nat): nat {
    var dx, dy := Abs(q.x - p.x), Abs(q.y - p.y);
    if dy <= dx then k else Rounded(dy, dx, k)
  }

  function MovesY(p: Point, q: Point, k: nat): nat {
    var dx, dy := Abs(q.x - p.x), Abs(q.y - p.y);
    if dy <= dx then Rounded(dx, dy, k) else k
  }

  /** The error term after `k` iterations. */
  function ErrorAt(p: Point, q: Point, k: nat): int {
    (1 + MovesY(p, q, k)) * Abs(q.x - p.x) - (1 + MovesX(p, q, k)) * Abs(q.y - p.y)
  }

  lemma StartOfLine(p: Point, q: Point)
    ensures LinePoint(p, q, 0) == p && ErrorAt(p, q, 0) == Abs(q.x - p.x) - Abs(q.y - p.y)
  {
    LineEnds(p, q);
    var dx, dy := Abs(q.x - p.x), Abs(q.y - p.y);
    if dy <= dx { if dx > 0 { RoundedEnds(dx, dy); } } else { RoundedEnds(dy, dx); }
  }

  /** The two tests on the doubled error decide the moves of the next iteration. */
  lemma NextMoves(p: Point, q: Point, k: nat)
    requires k < Steps(p, q)
    ensures var dx, dy, e := Abs(q.x - p.x), Abs(q.y - p.y), ErrorAt(p, q, k);
            && MovesX(p, q, k + 1) == MovesX(p, q, k) + (if 2 * e >= -(dy as int) then 1 else 0)
            && MovesY(p, q, k + 1) == MovesY(p, q, k) + if 2 * e <= dx then 1 else 0
  {
    var dx, dy, e := Abs(q.x - p.x), Abs(q.y - p.y), ErrorAt(p, q, k);
    if dy <= dx { MajorStep(dx, dy, k, MovesY(p, q, k), e); } else { MajorStep(dy, dx, k, MovesX(p, q, k), -e); }
  }

  /** So they lead to the next point of the rounded line, and keep the error term. */
  lemma NextPoint(p: Point, q: Point, k: nat)
    requires k < Steps(p, q)
    ensures var dx, dy := Abs(q.x - p.x), Abs(q.y - p.y);
            var e, at := ErrorAt(p, q, k), LinePoint(p, q, k);
            var goX, goY := 2 * e >= -(dy as int), 2 * e <= dx;
            && LinePoint(p, q, k + 1)
               == Point(at.x + (if goX then Sign(p.x, q.x) else 0), at.y + if goY then Sign(p.y, q.y) else 0)
            && ErrorAt(p, q, k + 1) == e + (if goX then -(dy as int) else 0) + if goY then dx else 0
  {
    NextMoves(p, q, k);
    Spread(MovesY(p, q, k), Abs(q.x - p.x));
    Spread(MovesX(p, q, k), Abs(q.y - p.y));
    Advance(Sign(p.x, q.x), MovesX(p, q, k));
    Advance(Sign(p.y, q.y), MovesY(p, q, k));
  }

  lemma Advance(s: int, k: int)
    ensures s * (k + 1) == s * k + s
  {
  }

  lemma Spread(a: int, n: int)
    ensures (1 + (a + 1)) * n == (1 + a) * n + n
  {
  }

  lemma MajorStep(n: nat, m: nat, k: nat, j: nat, err: int)
    requires n > 0 && m <= n && j == Rounded(n, m, k) && err == (1 + j) * n - (1 + k) * m
    ensures 2 * err >= -(m as int)
    ensures Rounded(n, m, k + 1) == if 2 * err <= n then j + 1 else j
  {
    ErrorTerm(n, m, k, j);
    RoundedUnique(n, m, k, j);
    RoundedStep(n, m, k, j);
    RoundedUnique(n, m, k + 1, if 2 * err <= n then j + 1 else j);
  }

  /** The error term runs ahead of the deviation by one step along each axis. */
  lemma ErrorTerm(n: int, m: int, k: int, j: int)
    ensures (1 + j) * n - (1 + k) * m == j * n - k * m + n - m
  {
    assert (1 + j) * n == j * n + n;
    assert (1 + k) * m == k * m + m;
  }

  /** With at most 715827882 steps twice the error term always fits a signed 32-bit integer. */
  lemma ErrorFits(p: Point, q: Point, k: nat)
    requires Steps(p, q) <= 715827882
    ensures -0x8000_0000 <= 2 * ErrorAt(p, q, k) <= 0x7FFF_FFFF
  {
    var dx, dy := Abs(q.x - p.x), Abs(q.y - p.y);
    if Steps(p, q) > 0 {
      if dy <= dx { ErrorBound(dx, dy, k); } else { ErrorBound(dy, dx, k); }
    }
  }

  lemma ErrorBound(n: nat, m: nat, k: nat)
    requires n > 0 && m <= n
    ensures -(n as int) <= 2 * ((1 + Rounded(n, m, k)) * n - (1 + k) * m) <= 3 * n
  {
    HalfPixel(n, m, k);
    ErrorTerm(n, m, k, Rounded(n, m, k));
  }

  /** Every point of the line is within half a pixel of the segment from `p` to `q`, measured
      along the minor axis: its cross product with the segment is at most half the length
      of the major axis. */
  lemma WithinHalfPixel(p: Point, q: Point, k: nat)
    ensures var at := LinePoint(p, q, k);
            2 * Abs((at.x - p.x) * (q.y - p.y) - (at.y - p.y) * (q.x - p.x)) <= Steps(p, q)
  {
    var dx, dy := Abs(q.x - p.x), Abs(q.y - p.y);
    MovesWithinHalf(p, q, k);
    Cross(Sign(p.x, q.x), Sign(p.y, q.y), MovesX(p, q, k), MovesY(p, q, k), dx, dy);
    SignedDifference(p.x, q.x);
    SignedDifference(p.y, q.y);
    PointByMoves(p, q, k);
  }

  lemma MovesWithinHalf(p: Point, q: Point, k: nat)
    ensures 2 * Abs(MovesY(p, q, k) * Abs(q.x - p.x) - MovesX(p, q, k) * Abs(q.y - p.y)) <= Steps(p, q)
  {
    var dx, dy := Abs(q.x - p.x), Abs(q.y - p.y);
    if Steps(p, q) > 0 {
      if dy <= dx { HalfPixel(dx, dy, k); } else { HalfPixel(dy, dx, k); }
    }
  }

  lemma SignedDifference(a: int, b: int)
    ensures b - a == Sign(a, b) * Abs(b - a)
  {
  }

  lemma PointByMoves(p: Point, q: Point, k: nat)
    ensures LinePoint(p, q, k) == Point(p.x + Sign(p.x, q.x) * MovesX(p, q, k), p.y + Sign(p.y, q.y) * MovesY(p, q, k))
  {
  }

  lemma Cross(sx: int, sy: int, mx: nat, my: nat, dx: nat, dy: nat)
    requires (sx == 1 || sx == -1) && (sy == 1 || sy == -1)
    ensures Abs((sx * mx) * (sy * dy) - (sy * my) * (sx * dx)) == Abs(my * dx - mx * dy)
  {
    SignedProduct(sx, sy, mx, dy);
    SignedProduct(sy, sx, my, dx);
  }

  lemma SignedProduct(s: int, t: int, a: int, b: int)
    requires (s == 1 || s == -1) && (t == 1 || t == -1)
    ensures (s * a) * (t * b) == if s == t then a * b else -(a * b)
  {
    if s == -1 { assert (s * a) * (t * b) == -(a * (t * b)); }
    if t == -1 { assert a * (t * b) == -(a * b); }
  }

  lemma ArrivedOnlyAtEnd(p: Point, q: Point, k: nat)
    requires k <= Steps(p, q)
    ensures LinePoint(p, q, k) == q <==> k == Steps(p, q)
  {
    LineEnds(p, q);
  }
}
