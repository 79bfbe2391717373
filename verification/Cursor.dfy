/**
  Cursor movement as arithmetic on positions, with the screen size, the scroll region and
  origin mode as the limits.
  */
module Cursor {
  import opened Common

  datatype Pos = Pos(x: int, y: int)

  datatype Limits = Limits(cols: nat, rows: nat, top: nat, bottom: nat, origin: bool)

  ghost predicate LimitsOk(l: Limits) {
    l.cols >= 2 && l.top <= l.bottom < l.rows
  }

  /** The cursor may stand one past the last column, waiting to wrap. */
  ghost predicate OnScreen(p: Pos, l: Limits) {
    0 <= p.x <= l.cols && 0 <= p.y < l.rows
  }

  function Clamp(low: int, high: int, v: int): int {
    Min(high, if v < low then low else v)
  }

  /** Brings a position onto the screen, or in origin mode into the scroll region. */
  function Restricted(p: Pos, l: Limits, maxCol: int): Pos {
    Pos(Clamp(0, maxCol, p.x), if l.origin then Clamp(l.top, l.bottom, p.y) else Clamp(0, l.rows - 1, p.y))
  }

  /** An absolute position; rows count from the top of the region in origin mode. */
  function Placed(l: Limits, x: int, y: int): Pos {
    Restricted(Pos(x, if l.origin then l.top + y else y), l, l.cols - 1)
  }

  /** A relative move. */
  function MovedBy(p: Pos, l: Limits, dx: int, dy: int): Pos {
    var q := Restricted(p, l, l.cols - 1);
    Placed(l, q.x + dx, q.y + dy)
  }

  function OrOne(n: int): int {
    if n == 0 then 1 else n
  }

  function Up(p: Pos, l: Limits, n: nat): Pos {
    var room := p.y - l.top;
    MovedBy(p, l, 0, if room >= 0 then -Min(room, OrOne(n)) else -OrOne(n))
  }

  function Down(p: Pos, l: Limits, n: nat): Pos {
    var room := l.bottom - p.y;
    MovedBy(p, l, 0, if room >= 0 then Min(room, OrOne(n)) else OrOne(n))
  }

  // ---------------------------------------------------------------- what the moves come to

  /** Brought between two bounds. */
  function Within(low: int, high: int, v: int): int {
    if v < low then low else if v > high then high else v
  }

  /**
    A relative move goes as far as the screen does.  The cursor behind the last column counts as in
    it; in origin mode the rows are bounded by the region, and its top is added to them once more.
    */
  lemma MoveMeaning(p: Pos, l: Limits, dx: int, dy: int)
    requires LimitsOk(l) && OnScreen(p, l) && (l.origin ==> l.top <= p.y <= l.bottom)
    ensures MovedBy(p, l, dx, dy) ==
            Pos(Within(0, l.cols - 1, (if p.x == l.cols then l.cols - 1 else p.x) + dx),
                if l.origin then Within(l.top, l.bottom, p.y + l.top + dy) else Within(0, l.rows - 1, p.y + dy))
  {
  }

  /** A position given by row and column, counted from 1 and by default 1: from the top of the screen, or of the region in origin mode. */
  lemma PositionMeaning(l: Limits, row: nat, col: nat)
    requires LimitsOk(l)
    ensures var y, x := if row == 0 then 0 else row - 1, if col == 0 then 0 else col - 1;
            Placed(l, OrOne(col) - 1, OrOne(row) - 1) ==
            Pos(Within(0, l.cols - 1, x), if l.origin then Within(l.top, l.bottom, l.top + y) else Within(0, l.rows - 1, y))
  {
  }

  /** Without origin mode, up stops at the top of the region, or at the top of the screen from above it. */
  lemma UpStops(p: Pos, l: Limits, n: nat)
    requires LimitsOk(l) && OnScreen(p, l) && !l.origin
    ensures var k := if n == 0 then 1 else n;
            Up(p, l, n) == Pos(if p.x == l.cols then l.cols - 1 else p.x, Within(if p.y >= l.top then l.top else 0, l.rows, p.y - k))
  {
  }

  lemma DownStops(p: Pos, l: Limits, n: nat)
    requires LimitsOk(l) && OnScreen(p, l) && !l.origin
    ensures var k := if n == 0 then 1 else n;
            Down(p, l, n) == Pos(if p.x == l.cols then l.cols - 1 else p.x, Within(0, if p.y <= l.bottom then l.bottom else l.rows - 1, p.y + k))
  {
  }

  /** Right and left, by one where no number is given, in the same row: as far as the first and the last column. */
  lemma SidewaysStops(p: Pos, l: Limits, n: nat)
    requires LimitsOk(l) && OnScreen(p, l) && !l.origin
    ensures var k, x := if n == 0 then 1 else n, if p.x == l.cols then l.cols - 1 else p.x;
            && MovedBy(p, l, OrOne(n), 0) == Pos(if x + k < l.cols then x + k else l.cols - 1, p.y)
            && MovedBy(p, l, -OrOne(n), 0) == Pos(if x - k < 0 then 0 else x - k, p.y)
  {
  }

  /** Down undoes up as long as no margin is hit. */
  lemma UpThenDown(p: Pos, l: Limits, n: nat)
    requires LimitsOk(l) && OnScreen(p, l) && !l.origin && p.x < l.cols && n > 0
    requires l.top <= p.y - n && p.y <= l.bottom
    ensures Down(Up(p, l, n), l, n) == p
  {
  }

  /**
    In origin mode a relative move adds the top margin a second time, be it up and down or to the
    side.  A move within the region ends where it should exactly when there is no top margin to add,
    or the bottom margin stops it at the place it was meant for.
    */
  lemma OriginMove(p: Pos, l: Limits, dx: int, dy: int)
    requires LimitsOk(l) && l.origin && l.top <= p.y <= l.bottom && l.top <= p.y + dy <= l.bottom && 0 <= p.x < l.cols && 0 <= p.x + dx < l.cols
    ensures MovedBy(p, l, dx, dy) == Pos(p.x + dx, p.y + dy) <==> l.top == 0 || p.y + dy == l.bottom
  {
  }

  /** So does a move to a column, which is meant to stay in its row. */
  lemma OriginColumn(p: Pos, l: Limits, x: int)
    requires LimitsOk(l) && l.origin && l.top <= p.y <= l.bottom && 0 <= x < l.cols
    ensures Placed(l, x, p.y) == Pos(x, p.y) <==> l.top == 0 || p.y == l.bottom
  {
  }

  /** The failing inputs: one row down from row 5, below a top margin of 2, ends in row 8, and one column to the right ends in row 7. */
  lemma OriginMoveDoubles()
    ensures MovedBy(Pos(0, 5), Limits(80, 24, 2, 20, true), 0, 1) == Pos(0, 8)
    ensures MovedBy(Pos(0, 5), Limits(80, 24, 2, 20, true), 1, 0) == Pos(1, 7)
    ensures Placed(Limits(80, 24, 2, 20, true), 10, 5) == Pos(10, 7)
  {
  }

  // ---------------------------------------------------------------- tab stops

  /** The first stop right of `x`, or the last column. */
  function NextStop(tabs: set<nat>, x: int, cols: nat): int
    requires 0 <= x
    decreases cols - x
  {
    if x + 1 >= cols then cols - 1
    else if x + 1 in tabs then x + 1
    else NextStop(tabs, x + 1, cols)
  }

  /** The last stop left of `x`, or the first column. */
  function PrevStop(tabs: set<nat>, x: int): int
    decreases x
  {
    if x - 1 <= 0 then 0
    else if x - 1 in tabs then x - 1
    else PrevStop(tabs, x - 1)
  }

  lemma {:induction false} NextStopMeaning(tabs: set<nat>, x: int, cols: nat)
    requires 0 <= x < cols
    ensures var s := NextStop(tabs, x, cols);
            && 0 <= s < cols && x <= s && (x < s || x == cols - 1)
            && (s == cols - 1 || s in tabs)
            && forall t :: x < t < s ==> t !in tabs
    decreases cols - x
  {
    if x + 1 < cols && x + 1 !in tabs {
      NextStopMeaning(tabs, x + 1, cols);
    }
  }

  lemma {:induction false} PrevStopMeaning(tabs: set<nat>, x: int, cols: nat)
    requires 0 <= x <= cols && cols > 0
    ensures var s := PrevStop(tabs, x);
            && 0 <= s < cols && s <= x && (s < x || x == 0)
            && (s == 0 || s in tabs)
            && forall t :: s < t < x ==> t !in tabs
    decreases x
  {
    if x - 1 > 0 && x - 1 !in tabs {
      PrevStopMeaning(tabs, x - 1, cols);
    }
  }
}
