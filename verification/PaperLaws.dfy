/** What each character does to the paper, character by character: the behaviour that
    kernel/src/console.c promises, apart from how the paper computes it. */
module PaperLaws {
  import opened PaperRoll

  /** The cell shows a character, by its code as an unsigned byte, in a colour. */
  predicate ShowsIn(cell: nat, code: nat, color: nat) { cell % 256 == code && cell / 256 == color }

  /** The cursor is in column `col` of line `line`. If that is the line after the last, then
      the paper has grown by a blank line, or, on a console that does not scroll, the cursor is
      back on the first line of the screen. */
  ghost predicate CursorAt(p: Paper, p': Paper, w: nat, h: nat, scroll: bool, line: nat, col: nat) {
    && line <= p.rows && h <= p.rows && p'.x == col && p'.color == p.color
    && |p.cells| <= |p'.cells|
    && (line < p.rows ==> p'.y == line && p'.rows == p.rows && |p'.cells| == |p.cells|)
    && (line == p.rows && !scroll ==> p'.y == p.rows - h && p'.rows == p.rows && |p'.cells| == |p.cells|)
    && (line == p.rows && scroll ==> p'.y == line && p'.rows == p.rows + 1 && |p'.cells| == |p.cells| + w)
    && forall i | |p.cells| <= i < |p'.cells| :: ShowsIn(p'.cells[i], 32, p.color)
  }

  /** No old cell but the one at `at` has changed. */
  ghost predicate KeptBut(p: Paper, p': Paper, at: int) {
    |p.cells| <= |p'.cells| && forall i | 0 <= i < |p.cells| && i != at :: p'.cells[i] == p.cells[i]
  }

  /** `\n`: the start of the next line. */
  lemma Newline(p: Paper, w: nat, h: nat, scroll: bool)
    requires Good(p, w, h)
    ensures var p' := Apply(p, w, h, scroll, Char(10)); CursorAt(p, p', w, h, scroll, p.y + 1, 0) && KeptBut(p, p', -1)
  {
    PosInRange(p, w, h);
  }

  /** `\r`: the start of the same line. */
  lemma CarriageReturn(p: Paper, w: nat, h: nat, scroll: bool)
    requires Good(p, w, h)
    ensures var p' := Apply(p, w, h, scroll, Char(13)); CursorAt(p, p', w, h, scroll, p.y, 0) && KeptBut(p, p', -1)
  {
    PosInRange(p, w, h);
  }

  /** `\t`: the next multiple of 8, or the start of the next line if that is past the edge. */
  lemma Tab(p: Paper, w: nat, h: nat, scroll: bool, stop: nat)
    requires Good(p, w, h) && stop % 8 == 0 && p.x < stop <= p.x + 8
    ensures var p' := Apply(p, w, h, scroll, Char(9));
            && KeptBut(p, p', -1)
            && (if stop < w then CursorAt(p, p', w, h, scroll, p.y, stop)
                else CursorAt(p, p', w, h, scroll, p.y + 1, 0))
  {
    PosInRange(p, w, h);
    assert (p.x + 8) / 8 * 8 == stop;
  }

  /** `\b`: one column back, blanking the cell there; nothing at the start of a line. */
  lemma Backspace(p: Paper, w: nat, h: nat, scroll: bool)
    requires Good(p, w, h)
    ensures var p', at := Apply(p, w, h, scroll, Char(8)), p.y * w + p.x - 1;
            if p.x == 0 then p' == p
            else && CursorAt(p, p', w, h, scroll, p.y, p.x - 1) && KeptBut(p, p', at)
                 && 0 <= at < |p'.cells| && ShowsIn(p'.cells[at], 32, p.color)
  {
    PosInRange(p, w, h);
  }

  /** A printable character: its cell shows it, and the cursor is one column on, or at the
      start of the next line after the last column. */
  lemma PrintableChar(p: Paper, w: nat, h: nat, scroll: bool, c: int)
    requires Good(p, w, h) && 32 <= c <= 127
    ensures var p', at := Apply(p, w, h, scroll, Char(c)), p.y * w + p.x;
            && KeptBut(p, p', at) && 0 <= at < |p'.cells| && ShowsIn(p'.cells[at], c, p.color)
            && (if p.x + 1 < w then CursorAt(p, p', w, h, scroll, p.y, p.x + 1)
                else CursorAt(p, p', w, h, scroll, p.y + 1, 0))
  {
    PosInRange(p, w, h);
  }

  /** Every other signed char, control or above 127 as a byte, does nothing. */
  lemma OtherChar(p: Paper, w: nat, h: nat, scroll: bool, c: int)
    requires Good(p, w, h) && -128 <= c < 32 && c != 8 && c != 9 && c != 10 && c != 13
    ensures Apply(p, w, h, scroll, Char(c)) == p
  {
    PosInRange(p, w, h);
  }

  /** Clearing shows a screen of blanks with the cursor in its first cell, and a colour change
      changes no cell. */
  lemma ClearAndTint(p: Paper, w: nat, h: nat, scroll: bool, color: nat)
    requires Good(p, w, h)
    ensures var p' := Apply(p, w, h, scroll, Clear);
            && h * w <= |p'.cells| && p'.x == 0 && p'.y * w == |p'.cells| - h * w && p'.color == p.color
            && forall i | |p'.cells| - h * w <= i < |p'.cells| :: ShowsIn(p'.cells[i], 32, p.color)
    ensures var q := Apply(p, w, h, scroll, Tint(color));
            q.cells == p.cells && q.rows == p.rows && q.x == p.x && q.y == p.y && q.color == color
  {
    PosInRange(p, w, h);
  }
}
