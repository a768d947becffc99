/** An endless paper roll of fixed width: what the text console would show if it never had
    to scroll. Cell `y * w + x` is column `x` of line `y`. */
module PaperRoll {
  import opened Arith

  /** `rows` lines of cells, the cursor, and the colour byte. */
  datatype Paper = Paper(cells: seq<nat>, rows: nat, x: nat, y: nat, color: nat)

  /** `vga_entry`, for a character as a signed char. */
  function Entry(c: int, color: nat): (cell: nat)
    ensures cell % 256 == c % 256 && cell / 256 == color
  {
    c % 256 + color * 256
  }

  function Blank(n: nat, color: nat): (s: seq<nat>)
    ensures |s| == n && forall i | 0 <= i < n :: s[i] == Entry(32, color)
  {
    seq(n, i => Entry(32, color))
  }

  /** The cursor is on one of the last `h` lines. */
  ghost predicate Good(p: Paper, w: nat, h: nat) {
    && w > 0 && 0 < h <= p.rows && |p.cells| == p.rows * w
    && p.rows - h <= p.y < p.rows && p.x < w
  }

  function Pos(p: Paper, w: nat): nat { p.y * w + p.x }

  lemma PosInRange(p: Paper, w: nat, h: nat)
    requires Good(p, w, h)
    ensures Pos(p, w) < |p.cells| && |p.cells| - h * w <= p.y * w && h * w <= |p.cells|
  {
    MulStrict(p.y, p.rows, w);
    assert (p.y - (p.rows - h)) * w >= 0;
    assert (p.rows - h) * w == p.rows * w - h * w;
    assert (p.rows - h) * w >= 0;
  }

  /** The cursor's cell as an index into the last `h` lines. */
  lemma ScreenIndex(p: Paper, w: nat, h: nat)
    requires Good(p, w, h)
    ensures h * w <= |p.cells|
    ensures (p.y - (p.rows - h)) * w + p.x == Pos(p, w) - (|p.cells| - h * w)
    ensures 0 <= (p.y - (p.rows - h)) * w + p.x < h * w
  {
    PosInRange(p, w, h);
    var top := p.rows - h;
    assert (p.y - top) * w == p.y * w - top * w;
    assert top * w == p.rows * w - h * w;
  }

  ghost function Window(p: Paper, w: nat, h: nat): seq<nat>
    requires h * w <= |p.cells|
  {
    p.cells[|p.cells| - h * w..]
  }

  predicate Printable(c: int) { 32 <= c <= 127 }

  /** Striking one character: the cells and where the cursor would go without wrapping. */
  function Struck(p: Paper, w: nat, c: int): seq<nat>
    requires Pos(p, w) < |p.cells|
  {
    if c == 8 && p.x > 0 then p.cells[Pos(p, w) - 1 := Entry(32, p.color)]
    else if Printable(c) then p.cells[Pos(p, w) := Entry(c, p.color)]
    else p.cells
  }

  function NextColumn(x: nat, c: int): nat {
    if c == 10 || c == 13 then 0
    else if c == 9 then (x + 8) / 8 * 8
    else if c == 8 then if x > 0 then x - 1 else 0
    else if Printable(c) then x + 1
    else x
  }

  /** One character. At the end of the paper a line is added, or, on a console that does
      not scroll, the cursor returns to the first of the last `h` lines. */
  function Put(p: Paper, w: nat, h: nat, scroll: bool, c: int): Paper
    requires Pos(p, w) < |p.cells| && h <= p.rows
  {
    var x := NextColumn(p.x, c);
    var y := if c == 10 || x >= w then p.y + 1 else p.y;
    var cells := Struck(p, w, c);
    var x' := if x >= w then 0 else x;
    if y < p.rows then Paper(cells, p.rows, x', y, p.color)
    else if scroll then Paper(cells + Blank(w, p.color), p.rows + 1, x', p.rows, p.color)
    else Paper(cells, p.rows, x', p.rows - h, p.color)
  }

  /** A form feed: `h` blank lines, cursor on the first. */
  function Feed(p: Paper, w: nat, h: nat): Paper {
    Paper(p.cells + Blank(h * w, p.color), p.rows + h, 0, p.rows, p.color)
  }

  lemma PutIsGood(p: Paper, w: nat, h: nat, scroll: bool, c: int)
    requires Good(p, w, h)
    ensures Pos(p, w) < |p.cells| && Good(Put(p, w, h, scroll, c), w, h)
  {
    PosInRange(p, w, h);
    assert (p.rows + 1) * w == p.rows * w + w;
  }

  // ----- Runs -----

  datatype Event = Char(c: int) | Tint(color: nat) | Clear

  ghost function Apply(p: Paper, w: nat, h: nat, scroll: bool, e: Event): Paper
    requires Good(p, w, h)
    ensures Good(Apply(p, w, h, scroll, e), w, h)
  {
    match e
    case Char(c) => PutIsGood(p, w, h, scroll, c); Put(p, w, h, scroll, c)
    case Tint(color) => p.(color := color)
    case Clear => assert (p.rows + h) * w == p.rows * w + h * w; Feed(p, w, h)
  }

  ghost function ApplyAll(p: Paper, w: nat, h: nat, scroll: bool, es: seq<Event>): (r: Paper)
    requires Good(p, w, h)
    ensures Good(r, w, h)
    decreases |es|
  {
    if es == [] then p else ApplyAll(Apply(p, w, h, scroll, es[0]), w, h, scroll, es[1..])
  }

  /** Nothing that has left the window is ever changed, and lines are only added. */
  lemma ApplyKeepsHistory(p: Paper, w: nat, h: nat, scroll: bool, e: Event)
    requires Good(p, w, h)
    ensures var p' := Apply(p, w, h, scroll, e);
            && |p.cells| <= |p'.cells| && h * w <= |p.cells|
            && p'.cells[..|p.cells| - h * w] == p.cells[..|p.cells| - h * w]
  {
    PosInRange(p, w, h);
  }

  lemma {:induction false} RunKeepsHistory(p: Paper, w: nat, h: nat, scroll: bool, es: seq<Event>)
    requires Good(p, w, h)
    ensures var p' := ApplyAll(p, w, h, scroll, es);
            && |p.cells| <= |p'.cells| && h * w <= |p.cells|
            && p'.cells[..|p.cells| - h * w] == p.cells[..|p.cells| - h * w]
    decreases |es|
  {
    PosInRange(p, w, h);
    if es != [] {
      var p1 := Apply(p, w, h, scroll, es[0]);
      ApplyKeepsHistory(p, w, h, scroll, es[0]);
      RunKeepsHistory(p1, w, h, scroll, es[1..]);
      var p', n := ApplyAll(p, w, h, scroll, es), |p.cells| - h * w;
      PosInRange(p1, w, h);
      assert p'.cells[..n] == p'.cells[..|p1.cells| - h * w][..n] == p1.cells[..n];
    }
  }

  function Chars(text: seq<int>): (es: seq<Event>)
    ensures |es| == |text| && forall i | 0 <= i < |es| :: es[i] == Char(text[i])
  {
    seq(|text|, i requires 0 <= i < |text| => Char(text[i]))
  }

  lemma PrintableStep(p: Paper, w: nat, h: nat, c: int)
    requires Good(p, w, h) && Printable(c)
    ensures var p' := Apply(p, w, h, true, Char(c));
            && Pos(p', w) == Pos(p, w) + 1 && p'.color == p.color && Pos(p, w) < |p.cells| <= |p'.cells|
            && p'.cells[..Pos(p, w)] == p.cells[..Pos(p, w)]
            && p'.cells[Pos(p, w)] == Entry(c, p.color)
  {
    PosInRange(p, w, h);
    assert (p.y + 1) * w == p.y * w + w;
  }

  /** One cell laid down, and then the rest of the text after it. */
  lemma LaidDown(start: seq<nat>, mid: seq<nat>, now: seq<nat>, at: nat, text: seq<int>, color: nat)
    requires text != [] && at <= |start| && at < |mid| && at + |text| <= |now|
    requires mid[..at] == start[..at] && mid[at] == Entry(text[0], color) && now[..at + 1] == mid[..at + 1]
    requires forall i | 0 <= i < |text| - 1 :: now[at + 1 + i] == Entry(text[1..][i], color)
    ensures now[..at] == start[..at] && forall i | 0 <= i < |text| :: now[at + i] == Entry(text[i], color)
  {
    assert now[..at] == now[..at + 1][..at] == mid[..at + 1][..at];
    assert now[at] == now[..at + 1][at];
    forall i | 0 <= i < |text| ensures now[at + i] == Entry(text[i], color) {
      if i > 0 { assert now[at + 1 + (i - 1)] == Entry(text[1..][i - 1], color); }
    }
  }

  /** Printable text is laid down cell after cell: wrapping at the right edge and scrolling
      leave no gap and lose nothing. */
  lemma {:induction false} PlainText(p: Paper, w: nat, h: nat, text: seq<int>)
    requires Good(p, w, h) && forall i | 0 <= i < |text| :: Printable(text[i])
    ensures var p' := ApplyAll(p, w, h, true, Chars(text));
            var at := Pos(p, w);
            && Pos(p', w) == at + |text| && at + |text| <= |p'.cells| && at <= |p.cells|
            && p'.cells[..at] == p.cells[..at]
            && forall i | 0 <= i < |text| :: p'.cells[at + i] == Entry(text[i], p.color)
    decreases |text|
  {
    PosInRange(p, w, h);
    if text != [] {
      var p1 := Apply(p, w, h, true, Char(text[0]));
      PrintableStep(p, w, h, text[0]);
      assert Chars(text)[1..] == Chars(text[1..]);
      PlainText(p1, w, h, text[1..]);
      var p' := ApplyAll(p1, w, h, true, Chars(text[1..]));
      assert p' == ApplyAll(p, w, h, true, Chars(text));
      LaidDown(p.cells, p1.cells, p'.cells, Pos(p, w), text, p.color);
    } else {
      assert Chars(text) == [];
    }
  }
}

/** The text console of kernel/src/console.c. */
module Console {
  import opened Arith
  import opened PaperRoll

  class Terminal {
    var buffer: array<nat>
    var width: nat
    var height: nat
    var cursorX: nat
    var cursorY: nat
    var color: nat
    var cursorEnabled: bool
    var scrollEnabled: bool
    /** The paper this console is a window on. */
    ghost var paper: Paper

    /** The screen is the bottom window of the paper. */
    ghost predicate Valid()
      reads this, buffer
    {
      && Good(paper, width, height) && buffer.Length == height * width <= |paper.cells|
      && buffer[..] == Window(paper, width, height)
      && cursorX == paper.x && cursorY == paper.y - (paper.rows - height) && color == paper.color
    }

    /** `console_init` on a display whose `width * height` cells hold anything. */
    constructor (buffer: array<nat>, width: nat, height: nat)
      requires width > 0 && height > 0 && buffer.Length == height * width
      modifies buffer
      ensures Valid() && this.buffer == buffer && this.width == width && this.height == height
      ensures scrollEnabled && color == 7
      ensures buffer[..] == Blank(height * width, 7) && cursorX == 0 && cursorY == 0
    {
      this.buffer, this.width, this.height := buffer, width, height;
      cursorX, cursorY, color := 0, 0, 7;
      cursorEnabled, scrollEnabled := true, true;
      paper := Paper(buffer[..], height, 0, 0, 7);
      new;
      assert buffer[..] == paper.cells[0..];
      Clear();
      assert buffer[..] == Blank(height * width, 7);
    }

    lemma RowFits(y: nat)
      requires y < height
      ensures y * width + width == (y + 1) * width <= height * width
    {
      MulStrict(y, height, width);
    }

    /** The inner copy loop of `console_scroll_up`: `width` cells, one line up. */
    method MoveLine(dst: nat, src: nat)
      requires src == dst + width && src + width <= buffer.Length
      modifies buffer
      ensures forall c | dst <= c < src :: buffer[c] == old(buffer[c + width])
      ensures forall c | 0 <= c < dst :: buffer[c] == old(buffer[c])
      ensures forall c | src <= c < buffer.Length :: buffer[c] == old(buffer[c])
    {
      for x := 0 to width
        invariant forall c | dst <= c < dst + x :: buffer[c] == old(buffer[c + width])
        invariant forall c | 0 <= c < dst :: buffer[c] == old(buffer[c])
        invariant forall c | dst + x <= c < buffer.Length :: buffer[c] == old(buffer[c])
      {
        buffer[dst + x] := buffer[src + x];
      }
    }

    /** The inner loop that blanks a line. */
    method BlankLine(at: nat)
      requires at + width <= buffer.Length
      modifies buffer
      ensures forall c | at <= c < at + width :: buffer[c] == Entry(32, color)
      ensures forall c | 0 <= c < at :: buffer[c] == old(buffer[c])
      ensures forall c | at + width <= c < buffer.Length :: buffer[c] == old(buffer[c])
    {
      for x := 0 to width
        invariant forall c | at <= c < at + x :: buffer[c] == Entry(32, color)
        invariant forall c | 0 <= c < at :: buffer[c] == old(buffer[c])
        invariant forall c | at + x <= c < buffer.Length :: buffer[c] == old(buffer[c])
      {
        buffer[at + x] := Entry(32, color);
      }
    }

    method ScrollUp()
      requires width > 0 && height > 0 && buffer.Length == height * width
      modifies buffer
      ensures width <= buffer.Length && buffer[..] == old(buffer[..])[width..] + Blank(width, color)
    {
      RowFits(height - 1);
      var y := 0;
      while y < height - 1
        invariant 0 <= y <= height - 1 && 0 <= y * width <= buffer.Length - width
        invariant forall c | 0 <= c < y * width :: buffer[c] == old(buffer[c + width])
        invariant forall c | y * width <= c < buffer.Length :: buffer[c] == old(buffer[c])
      {
        RowFits(y);
        RowFits(y + 1);
        MoveLine(y * width, (y + 1) * width);
        y := y + 1;
      }
      BlankLine((height - 1) * width);
    }

    /** `console_clear` */
    method Clear()
      requires Valid()
      modifies this`cursorX, this`cursorY, this`paper, buffer
      ensures Valid() && paper == Apply(old(paper), width, height, scrollEnabled, Event.Clear)
    {
      var y := 0;
      while y < height
        modifies buffer
        invariant 0 <= y <= height && y * width <= buffer.Length
        invariant forall c | 0 <= c < y * width :: buffer[c] == Entry(32, color)
      {
        RowFits(y);
        BlankLine(y * width);
        y := y + 1;
      }
      paper := Apply(paper, width, height, scrollEnabled, Event.Clear);
      cursorX, cursorY := 0, 0;
      SetCursorPos(0, 0);
    }

    /** `console_set_cursor_pos`: the cursor lands on the screen whatever is asked for. A
        column or line on the screen is kept, any other becomes the last one. */
    method SetCursorPos(x: nat, y: nat)
      requires width > 0 && height > 0
      modifies this`cursorX, this`cursorY
      ensures cursorX < width && (cursorX == x < width || cursorX + 1 == width <= x)
      ensures cursorY < height && (cursorY == y < height || cursorY + 1 == height <= y)
    {
      cursorX := if x >= width then width - 1 else x;
      cursorY := if y >= height then height - 1 else y;
    }

    /** The first half of `console_putchar`: the character itself. */
    method Strike(c: int)
      requires Valid() && c <= 127
      modifies this`cursorX, this`cursorY, buffer
      ensures Pos(paper, width) < |paper.cells| && height * width <= |paper.cells|
      ensures buffer[..] == Struck(paper, width, c)[|paper.cells| - height * width..]
      ensures cursorX == NextColumn(paper.x, c)
      ensures cursorY == old(cursorY) + if c == 10 then 1 else 0
    {
      ScreenIndex(paper, width, height);
      PosInRange(paper, width, height);
      ghost var at := Pos(paper, width) - (|paper.cells| - height * width);
      if c == 10 {
        cursorX := 0;
        cursorY := cursorY + 1;
      } else if c == 13 {
        cursorX := 0;
      } else if c == 9 {
        cursorX := (cursorX + 8) / 8 * 8;
      } else if c == 8 {
        if cursorX > 0 {
          cursorX := cursorX - 1;
          WindowUpdate(paper.cells, height * width, at - 1, Entry(32, color));
          WriteCell(cursorX, cursorY, Entry(32, color), at - 1);
        }
      } else if c >= 32 {
        WindowUpdate(paper.cells, height * width, at, Entry(c, color));
        WriteCell(cursorX, cursorY, Entry(c, color), at);
        cursorX := cursorX + 1;
      }
    }

    method WriteCell(x: nat, y: nat, cell: nat, ghost at: nat)
      requires at == y * width + x < buffer.Length
      modifies buffer
      ensures buffer[..] == old(buffer[..])[at := cell]
    {
      buffer[y * width + x] := cell;
    }

    /** The second half of `console_putchar`: wrapping, scrolling, the hardware cursor. */
    method Settle(ghost c: int)
      requires Good(paper, width, height) && buffer.Length == height * width <= |paper.cells|
      requires Pos(paper, width) < |paper.cells|
      requires buffer[..] == Struck(paper, width, c)[|paper.cells| - height * width..]
      requires cursorX == NextColumn(paper.x, c) && color == paper.color
      requires cursorY == paper.y - (paper.rows - height) + if c == 10 then 1 else 0
      modifies this`cursorX, this`cursorY, this`paper, buffer
      ensures Valid() && paper == Apply(old(paper), width, height, scrollEnabled, Char(c))
    {
      PutWindow(paper, width, height, scrollEnabled, c);
      ghost var p' := Put(paper, width, height, scrollEnabled, c);
      if cursorX >= width {
        cursorX := 0;
        cursorY := cursorY + 1;
      }
      if cursorY >= height {
        if scrollEnabled {
          ScrollUp();
          cursorY := height - 1;
        } else {
          cursorY := 0;
        }
      }
      paper := p';
      assert cursorX == paper.x && cursorY == paper.y - (paper.rows - height);
      if cursorEnabled { SetCursorPos(cursorX, cursorY); }
    }

    /** `console_putchar` moves the window over the paper; it never shows anything else. */
    method PutChar(c: int)
      requires Valid() && -128 <= c <= 127
      modifies this`cursorX, this`cursorY, this`paper, buffer
      ensures Valid() && paper == Apply(old(paper), width, height, scrollEnabled, Char(c))
    {
      Strike(c);
      Settle(c);
    }

    /** Storing a colour byte. */
    method Recolor(newColor: nat)
      requires Valid()
      modifies this`color, this`paper
      ensures Valid() && paper == Apply(old(paper), width, height, scrollEnabled, Tint(newColor))
    {
      color := newColor;
      paper := paper.(color := newColor);
    }

    /** `console_set_color` */
    method SetColor(fg: nat, bg: nat)
      requires Valid() && fg < 16 && bg < 16
      modifies this`color, this`paper
      ensures Valid() && color % 16 == fg && color / 16 == bg
      ensures paper == Apply(old(paper), width, height, scrollEnabled, Tint(color))
    {
      Recolor(WithBackground(fg, bg));
    }

    method SetForeground(fg: nat)
      requires Valid() && fg < 16
      modifies this`color, this`paper
      ensures Valid() && paper == Apply(old(paper), width, height, scrollEnabled, Tint(WithForeground(old(color), fg)))
    {
      Recolor(WithForeground(color, fg));
    }

    method SetBackground(bg: nat)
      requires Valid() && bg < 16
      modifies this`color, this`paper
      ensures Valid() && paper == Apply(old(paper), width, height, scrollEnabled, Tint(WithBackground(old(color), bg)))
    {
      Recolor(WithBackground(color, bg));
    }

    method Handle(e: Event)
      requires Valid() && (e.Char? ==> -128 <= e.c <= 127)
      modifies this`cursorX, this`cursorY, this`color, this`paper, buffer
      ensures Valid() && paper == Apply(old(paper), width, height, scrollEnabled, e)
    {
      match e
      case Char(c) => PutChar(c);
      case Tint(newColor) => Recolor(newColor);
      case Clear => Clear();
    }

    /** Any run of characters, colour changes and clears is that run on the paper.
        `console_puts` is the run that consists of characters only. */
    method Play(events: seq<Event>)
      requires Valid()
      requires forall e <- events :: e.Char? ==> -128 <= e.c <= 127
      modifies this`cursorX, this`cursorY, this`color, this`paper, buffer
      ensures Valid() && paper == ApplyAll(old(paper), width, height, scrollEnabled, events)
    {
      var i := 0;
      while i < |events|
        invariant 0 <= i <= |events| && Valid()
        invariant ApplyAll(paper, width, height, scrollEnabled, events[i..])
                  == ApplyAll(old(paper), width, height, scrollEnabled, events)
      {
        assert events[i] in events;
        Handle(events[i]);
        assert events[i..][1..] == events[i + 1..];
        i := i + 1;
      }
    }
  }

  /** `c & 0xF0`, `c & 0x0F` and `fg | bg << 4` on a colour byte, with 4-bit colours. */
  function WithForeground(color: nat, fg: nat): (r: nat)
    requires fg < 16
    ensures r % 16 == fg && r / 16 == color / 16
  {
    color / 16 * 16 + fg
  }

  function WithBackground(color: nat, bg: nat): (r: nat)
    requires bg < 16
    ensures r % 16 == color % 16 && r / 16 == bg
  {
    color % 16 + bg * 16
  }

  lemma WindowUpdate(cells: seq<nat>, n: nat, at: nat, cell: nat)
    requires at < n <= |cells|
    ensures cells[|cells| - n + at := cell][|cells| - n..] == cells[|cells| - n..][at := cell]
  {
  }

  /** What the screen must show after one character, in terms of what it showed. */
  lemma PutWindow(p: Paper, w: nat, h: nat, scroll: bool, c: int)
    requires Good(p, w, h)
    ensures Pos(p, w) < |p.cells| && h * w <= |p.cells|
    ensures var p' := Put(p, w, h, scroll, c);
            var x := NextColumn(p.x, c);
            var shown := Struck(p, w, c)[|p.cells| - h * w..];
            && Good(p', w, h) && h * w <= |p'.cells| && w <= h * w
            && Window(p', w, h)
               == if (c == 10 || x >= w) && p.y + 1 == p.rows && scroll then shown[w..] + Blank(w, p.color) else shown
  {
    PosInRange(p, w, h);
    PutIsGood(p, w, h, scroll, c);
    MulStrict(0, h, w);
    WindowSlides(Struck(p, w, c), Blank(w, p.color), h * w);
  }

  lemma WindowSlides(cells: seq<nat>, more: seq<nat>, n: nat)
    requires |more| <= n <= |cells|
    ensures (cells + more)[|cells| + |more| - n..] == cells[|cells| - n..][|more|..] + more
  {
  }
}
