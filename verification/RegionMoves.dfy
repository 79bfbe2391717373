/** What scrolling, inserting and deleting lines and a reverse index leave in every row of the screen. */
module RegionMoves {
  import opened Common
  import opened BufferLine
  import opened Scrolling
  import opened Cursor
  import opened Printing
  import opened ScreenOps

  function EmptyLine(cols: nat, attr: int): Line {
    Line(seq(cols, _ => Cell([], 1, attr)), false)
  }

  /** The rows from `first` to `last` have moved up by `n`: what was above is gone, below there are empty lines. */
  ghost predicate RowsUp(s: Screen, t: Screen, f: Frame, cols: nat, first: nat, last: nat, n: nat, attr: int)
    requires ScreenOk(s, f, cols) && ScreenOk(t, f, cols) && last < f.rows
  {
    && t.view == s.view.(lines := t.view.lines) && t.view.lines[..t.view.ybase] == s.view.lines[..s.view.ybase]
    && forall y :: 0 <= y < f.rows ==>
         ScreenLine(t, f, cols, y) == if first <= y <= last && y + n <= last then ScreenLine(s, f, cols, y + n)
                                      else if first <= y <= last then EmptyLine(cols, attr)
                                      else ScreenLine(s, f, cols, y)
  }

  /** The rows from `first` to `last` have moved down by `n`: what was below is gone, above there are empty lines. */
  ghost predicate RowsDown(s: Screen, t: Screen, f: Frame, cols: nat, first: nat, last: nat, n: nat, attr: int)
    requires ScreenOk(s, f, cols) && ScreenOk(t, f, cols) && last < f.rows
  {
    && t.view == s.view.(lines := t.view.lines) && t.view.lines[..t.view.ybase] == s.view.lines[..s.view.ybase]
    && forall y :: 0 <= y < f.rows ==>
         ScreenLine(t, f, cols, y) == if first <= y <= last && y - n >= first then ScreenLine(s, f, cols, y - n)
                                      else if first <= y <= last then EmptyLine(cols, attr)
                                      else ScreenLine(s, f, cols, y)
  }

  lemma UpMoves(s: Screen, t: Screen, f: Frame, cols: nat, first: nat, n: nat, attr: int)
    requires ScreenOk(s, f, cols) && ScreenOk(t, f, cols) && first <= f.bottom
    requires t.view == s.view.(lines := RegionUp(s.view.lines, s.view.ybase + first, s.view.ybase + f.bottom, n, BlankLine(cols, attr)))
    ensures RowsUp(s, t, f, cols, first, f.bottom, n, attr)
  {
    assert BlankLine(cols, attr) == EmptyLine(cols, attr);
  }

  lemma DownMoves(s: Screen, t: Screen, f: Frame, cols: nat, first: nat, n: nat, attr: int)
    requires ScreenOk(s, f, cols) && ScreenOk(t, f, cols) && first <= f.bottom
    requires t.view == s.view.(lines := RegionDown(s.view.lines, s.view.ybase + first, s.view.ybase + f.bottom, n, BlankLine(cols, attr)))
    ensures RowsDown(s, t, f, cols, first, f.bottom, n, attr)
  {
    assert BlankLine(cols, attr) == EmptyLine(cols, attr);
  }

  /** Scrolling up: the lines of the region go up by `n`, by one where no number is given; the cursor stays. */
  lemma ScrollUpMeaning(s: Screen, f: Frame, cols: nat, attr: int, n: nat)
    requires ScreenOk(s, f, cols)
    ensures var t := RegionScrolled(s, f, cols, true, attr, n);
            t.pos == s.pos && RowsUp(s, t, f, cols, f.top, f.bottom, if n == 0 then 1 else n, attr)
  {
    UpMoves(s, RegionScrolled(s, f, cols, true, attr, n), f, cols, f.top, OrOne(n), attr);
    hide RowsUp, RegionUp;
  }

  lemma ScrollDownMeaning(s: Screen, f: Frame, cols: nat, attr: int, n: nat)
    requires ScreenOk(s, f, cols)
    ensures var t := RegionScrolled(s, f, cols, false, attr, n);
            t.pos == s.pos && RowsDown(s, t, f, cols, f.top, f.bottom, if n == 0 then 1 else n, attr)
  {
    DownMoves(s, RegionScrolled(s, f, cols, false, attr, n), f, cols, f.top, OrOne(n), attr);
    hide RowsDown, RegionDown;
  }

  /** The row that counts: in origin mode the nearest one in the region. */
  function RowMeant(y: int, f: Frame, origin: bool): int {
    if !origin then y else if y < f.top then f.top else if y > f.bottom then f.bottom else y
  }

  /** Inserted lines push those from the cursor to the end of the region down; outside the region nothing happens. */
  lemma InsertLinesMeaning(s: Screen, f: Frame, cols: nat, origin: bool, attr: int, n: nat)
    requires ScreenOk(s, f, cols)
    ensures var t, y := LinesInserted(s, f, cols, origin, attr, n), RowMeant(s.pos.y, f, origin);
            if f.top <= y <= f.bottom then t.pos == Pos(0, y) && RowsDown(s, t, f, cols, y, f.bottom, if n == 0 then 1 else n, attr)
            else t == s.(pos := Pos(Min(s.pos.x, cols - 1), s.pos.y))
  {
    var t, y := LinesInserted(s, f, cols, origin, attr, n), RowMeant(s.pos.y, f, origin);
    hide RowsDown, RegionDown;
    if f.top <= y <= f.bottom {
      DownMoves(s, t, f, cols, y, OrOne(n), attr);
    }
  }

  lemma DeleteLinesMeaning(s: Screen, f: Frame, cols: nat, origin: bool, attr: int, n: nat)
    requires ScreenOk(s, f, cols)
    ensures var t, y := LinesDeleted(s, f, cols, origin, attr, n), RowMeant(s.pos.y, f, origin);
            if f.top <= y <= f.bottom then t.pos == Pos(0, y) && RowsUp(s, t, f, cols, y, f.bottom, if n == 0 then 1 else n, attr)
            else t == s.(pos := Pos(Min(s.pos.x, cols - 1), s.pos.y))
  {
    var t, y := LinesDeleted(s, f, cols, origin, attr, n), RowMeant(s.pos.y, f, origin);
    hide RowsUp, RegionUp;
    if f.top <= y <= f.bottom {
      UpMoves(s, t, f, cols, y, OrOne(n), attr);
    }
  }

  /** A reverse index goes one row up; at the top of the region the region goes down instead, and at the top of the screen nothing moves. */
  lemma ReverseIndexMeaning(s: Screen, f: Frame, cols: nat, origin: bool, attr: int)
    requires ScreenOk(s, f, cols)
    ensures var t, y := ReverseIndexed(s, f, cols, origin, attr), RowMeant(s.pos.y, f, origin);
            if y == f.top then t.pos == Pos(Min(s.pos.x, cols - 1), y) && RowsDown(s, t, f, cols, f.top, f.bottom, 1, attr)
            else t == s.(pos := Pos(Min(s.pos.x, cols - 1), Max(0, y - 1)))
  {
    var t, y := ReverseIndexed(s, f, cols, origin, attr), RowMeant(s.pos.y, f, origin);
    hide RowsDown, RegionDown;
    if y == f.top {
      DownMoves(s, t, f, cols, f.top, 1, attr);
    }
  }
}
