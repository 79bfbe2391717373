/**
  Rows with wide characters: a character of width 2 takes two cells, the second of them empty
  and of width 0.  Writing over one half must clear the other.
  */
module WideCells {
  import opened BufferLine

  type Cells = seq<Cell>

  /** A second half: empty, and no width of its own. */
  predicate IsHalf(c: Cell) {
    c.width == 0 && c.text == []
  }

  /** Cell `k` fits its neighbours.  A character of width 0 stands on its own in the first column only. */
  ghost predicate CellOk(cells: Cells, k: nat)
    requires k < |cells|
  {
    && cells[k].width <= 2
    && (cells[k].width == 2 ==> cells[k].text != [] && k + 1 < |cells| && IsHalf(cells[k + 1]))
    && (cells[k].width == 0 && cells[k].text != [] ==> k == 0)
    && (IsHalf(cells[k]) ==> k > 0 && cells[k - 1].width == 2)
  }

  /** No wide character is torn. */
  ghost predicate RowOk(cells: Cells) {
    forall k :: 0 <= k < |cells| ==> CellOk(cells, k)
  }

  /** No wide character is torn, except that at `x` there may be a second half without its first. */
  ghost predicate RowOkUpTo(cells: Cells, x: nat) {
    && (forall k :: 0 <= k < |cells| && (k != x || !IsHalf(cells[k])) ==> CellOk(cells, k))
    && (0 < x <= |cells| ==> cells[x - 1].width != 2)
  }

  lemma BlankRowOk(cols: nat, attr: int)
    ensures RowOk(Blank(cols, attr))
  {
  }

  /** Clearing a first half just before `x` leaves at most an orphan at `x`. */
  function ClearedBefore(cells: Cells, x: nat, attr: int): Cells {
    if 0 < x <= |cells| && cells[x - 1].width == 2 then cells[x - 1 := NullCell(attr)] else cells
  }

  lemma ClearBefore(cells: Cells, x: nat, attr: int)
    requires RowOk(cells)
    ensures RowOkUpTo(ClearedBefore(cells, x, attr), x)
  {
    var d := ClearedBefore(cells, x, attr);
    forall k | 0 <= k < |d| && (k != x || !IsHalf(d[k])) ensures CellOk(d, k) {
      assert CellOk(cells, k);
      assert x > 0 && x <= |cells| ==> CellOk(cells, x - 1);
    }
  }

  /** Clearing the orphan at `x`. */
  function ClearedAt(cells: Cells, x: nat, attr: int): Cells {
    if x < |cells| && IsHalf(cells[x]) then cells[x := NullCell(attr)] else cells
  }

  lemma ClearAt(cells: Cells, x: nat, attr: int)
    requires RowOkUpTo(cells, x)
    ensures RowOk(ClearedAt(cells, x, attr))
  {
    var d := ClearedAt(cells, x, attr);
    forall k | 0 <= k < |d| ensures CellOk(d, k) {
      assert k != x ==> CellOk(cells, k);
    }
  }

  /** A character written at `x`, with the second half behind it if it is wide. */
  function Written(cells: Cells, x: nat, text: seq<nat>, width: nat, attr: int): (d: Cells)
    requires x < |cells| && (width == 2 ==> x + 1 < |cells|)
    ensures |d| == |cells|
  {
    var d := cells[x := Cell(text, width, attr)];
    if width == 2 then d[x + 1 := Cell([], 0, attr)] else d
  }

  /** Writing moves the possible orphan behind what was written. */
  lemma Write(cells: Cells, x: nat, text: seq<nat>, width: nat, attr: int)
    requires RowOkUpTo(cells, x) && x < |cells|
    requires width == 1 || (width == 2 && x + 1 < |cells| && text != []) || (width == 0 && x == 0 && text != [])
    ensures RowOkUpTo(Written(cells, x, text, width, attr), x + if width == 2 then 2 else 1)
  {
    var d := Written(cells, x, text, width, attr);
    var next := x + if width == 2 then 2 else 1;
    forall k | 0 <= k < |d| && (k != next || !IsHalf(d[k])) ensures CellOk(d, k) {
      if k > next || k < x {
        assert CellOk(cells, k);
        if k + 1 == x {
          assert cells[k].width != 2;
        }
      } else if k == next {
        assert !IsHalf(cells[k]);
        assert CellOk(cells, k);
      }
    }
  }

  /** A combining character joins a cell; an empty cell becomes a narrow one. */
  function Joined(c: Cell, code: nat): Cell {
    if c.text != [] then c.(text := c.text + [code]) else Cell([code], 1, c.attr)
  }

  /** It joins the cell before `x`, or the first half before that. */
  function Combined(cells: Cells, x: nat, code: nat): (d: Cells)
    requires 0 < x <= |cells|
    ensures |d| == |cells|
  {
    if cells[x - 1].width != 0 then cells[x - 1 := Joined(cells[x - 1], code)]
    else if x >= 2 then cells[x - 2 := Joined(cells[x - 2], code)]
    else cells
  }

  lemma Combine(cells: Cells, x: nat, code: nat)
    requires RowOkUpTo(cells, x) && 0 < x <= |cells|
    ensures RowOkUpTo(Combined(cells, x, code), x)
  {
    var d := Combined(cells, x, code);
    assert CellOk(cells, x - 1);
    assert x >= 2 ==> CellOk(cells, x - 2);
    forall k | 0 <= k < |d| && (k != x || !IsHalf(d[k])) ensures CellOk(d, k) {
      assert k != x || !IsHalf(cells[k]);
      assert CellOk(cells, k);
    }
  }

  function Spread(cells: Cells, x: nat, n: nat, attr: int): (d: Cells)
    requires x <= |cells|
    ensures |d| == |cells|
  {
    (cells[..x] + Blank(n, attr) + cells[x..])[..|cells|]
  }

  lemma SpreadAt(cells: Cells, x: nat, n: nat, attr: int, k: nat)
    requires x <= |cells| && k < |cells|
    ensures Spread(cells, x, n, attr)[k] == if k < x then cells[k] else if k < x + n then NullCell(attr) else cells[k - n]
  {
  }

  /** `n` empty cells inserted at `x`; what is pushed out on the right is lost, a first half at the edge is cleared. */
  function CellsInserted(cells: Cells, x: nat, n: nat, attr: int): (d: Cells)
    requires x <= |cells|
    ensures |d| == |cells|
  {
    var e := Spread(ClearedBefore(cells, x, attr), x, n, attr);
    if |e| > 0 && e[|e| - 1].width == 2 then e[|e| - 1 := NullCell(attr)] else e
  }

  /** A combining character without a base; only the first column can hold one. */
  predicate StandsAlone(c: Cell) {
    c.width == 0 && c.text != []
  }

  lemma CellsInsertedAt(cells: Cells, x: nat, n: nat, attr: int, k: nat)
    requires x <= |cells| && k < |cells| && (0 < x ==> cells[x - 1].width != 2)
    ensures var d := CellsInserted(cells, x, n, attr);
            d[k] == if k < x then cells[k]
                    else if k < x + n then NullCell(attr)
                    else if k == |cells| - 1 && cells[k - n].width == 2 then NullCell(attr)
                    else cells[k - n]
  {
    SpreadAt(cells, x, n, attr, k);
    SpreadAt(cells, x, n, attr, |cells| - 1);
    hide Spread;
  }

  /** The loops that make room: from the right end backwards, then over the gap. */
  method ShiftRight(l: BufferLine, x: nat, n: nat)
    requires x + n <= |l.cells|
    modifies l`cells
    ensures |l.cells| == |old(l.cells)|
    ensures forall k :: 0 <= k < x + n ==> l.cells[k] == old(l.cells)[k]
    ensures forall k :: x + n <= k < |l.cells| ==> l.cells[k] == old(l.cells)[k - n]
  {
    var length := |l.cells|;
    var i := length - x - n;
    while i > 0
      invariant 0 <= i <= length - x - n && |l.cells| == length
      invariant forall k :: 0 <= k < x + n + i ==> l.cells[k] == old(l.cells)[k]
      invariant forall k :: x + n + i <= k < length ==> l.cells[k] == old(l.cells)[k - n]
    {
      i := i - 1;
      l.cells := l.cells[x + n + i := l.cells[x + i]];
    }
  }

  method FillCells(l: BufferLine, from: nat, to: nat, attr: int)
    requires from <= to <= |l.cells|
    modifies l`cells
    ensures |l.cells| == |old(l.cells)|
    ensures forall k :: 0 <= k < |l.cells| ==> l.cells[k] == if from <= k < to then NullCell(attr) else old(l.cells)[k]
  {
    for k := from to to
      invariant |l.cells| == |old(l.cells)|
      invariant forall j :: 0 <= j < |l.cells| ==> l.cells[j] == if from <= j < k then NullCell(attr) else old(l.cells)[j]
    {
      l.cells := l.cells[k := NullCell(attr)];
    }
  }

  method SpreadCells(l: BufferLine, x: nat, n: nat, attr: int)
    requires x <= |l.cells|
    modifies l`cells
    ensures l.cells == Spread(old(l.cells), x, n, attr)
  {
    hide Spread;
    ghost var c := l.cells;
    var length := |l.cells|;
    if n < length - x {
      ShiftRight(l, x, n);
      FillCells(l, x, x + n, attr);
    } else {
      FillCells(l, x, length, attr);
    }
    ghost var d := l.cells;
    forall k | 0 <= k < length ensures d[k] == Spread(c, x, n, attr)[k] {
      SpreadAt(c, x, n, attr, k);
    }
  }

  /** Shifts the cells from `x` on to the right by `n`, in place, and clears those that became free. */
  method InsertCells(l: BufferLine, x: nat, n: nat, attr: int)
    requires x < |l.cells|
    modifies l`cells
    ensures l.cells == CellsInserted(old(l.cells), x, n, attr)
  {
    if x > 0 && l.cells[x - 1].width == 2 {
      l.cells := l.cells[x - 1 := NullCell(attr)];
    }
    SpreadCells(l, x, n, attr);
    hide Spread;
    var last := |l.cells| - 1;
    if l.cells[last].width == 2 {
      l.cells := l.cells[last := NullCell(attr)];
    }
  }

  lemma InsertedCellOk(cells: Cells, x: nat, n: nat, attr: int, k: nat)
    requires RowOkUpTo(cells, x) && 0 < n && x + n < |cells| && (x > 0 || !StandsAlone(cells[0])) && k < |cells|
    requires k != x + n || !IsHalf(CellsInserted(cells, x, n, attr)[k])
    ensures CellOk(CellsInserted(cells, x, n, attr), k)
  {
    hide CellsInserted;
    CellsInsertedAt(cells, x, n, attr, k);
    if k > 0 {
      CellsInsertedAt(cells, x, n, attr, k - 1);
    }
    if k + 1 < |cells| {
      CellsInsertedAt(cells, x, n, attr, k + 1);
    }
    assert k < x ==> CellOk(cells, k);
    assert k >= x + n ==> CellOk(cells, k - n) || (k == x + n && IsHalf(cells[x]));
    assert x > 0 ==> cells[x - 1].width != 2;
    hide RowOkUpTo;
  }

  /** Insert mode pushes a lone combining character out of the first column, and does no other harm. */
  lemma Insert(cells: Cells, x: nat, n: nat, attr: int)
    requires RowOkUpTo(cells, x) && 0 < n && x + n < |cells|
    ensures RowOkUpTo(CellsInserted(cells, x, n, attr), x + n) <==> x > 0 || !StandsAlone(cells[0])
  {
    var d := CellsInserted(cells, x, n, attr);
    CellsInsertedAt(cells, x, n, attr, x + n);
    if x == 0 && StandsAlone(cells[0]) {
      assert !CellOk(d, n);
    } else {
      forall k | 0 <= k < |d| && (k != x + n || !IsHalf(d[k])) ensures CellOk(d, k) {
        InsertedCellOk(cells, x, n, attr, k);
      }
      CellsInsertedAt(cells, x, n, attr, x + n - 1);
      hide CellOk;
    }
    hide CellsInserted;
  }

  /** With the inserted cells reaching the last column, everything behind them is gone. */
  lemma InsertToEnd(cells: Cells, x: nat, n: nat, attr: int)
    requires RowOkUpTo(cells, x) && 0 < n && x + n == |cells|
    ensures RowOkUpTo(CellsInserted(cells, x, n, attr), x + n)
  {
    var d := CellsInserted(cells, x, n, attr);
    forall k | 0 <= k < |d| ensures d[k] == if k < x then cells[k] else NullCell(attr) {
      CellsInsertedAt(cells, x, n, attr, k);
    }
    hide CellsInserted;
    forall k | 0 <= k < |d| ensures CellOk(d, k) {
      if k < x {
        assert CellOk(cells, k);
      }
    }
  }

  /** Writing over the cells that were inserted changes nothing for those behind. */
  lemma WriteOver(cells: Cells, x: nat, text: seq<nat>, width: nat, attr: int)
    requires 1 <= width <= 2 && x + width <= |cells| && text != []
    requires forall k :: x <= k < x + width ==> cells[k] == NullCell(cells[k].attr)
    ensures RowOkUpTo(Written(cells, x, text, width, attr), x + width) <==> RowOkUpTo(cells, x + width)
  {
    var d := Written(cells, x, text, width, attr);
    var next := x + width;
    forall k | 0 <= k < |d| && (k < x || k >= next) ensures CellOk(d, k) <==> CellOk(cells, k) {
    }
    forall k | x <= k < next ensures CellOk(d, k) && CellOk(cells, k) && !IsHalf(cells[k]) {
    }
    forall k | 0 <= k < |d| && (k < x || k >= next) ensures d[k] == cells[k] {
    }
  }

  lemma InsertedAreNull(cells: Cells, x: nat, n: nat, attr: int)
    requires RowOkUpTo(cells, x) && x + n <= |cells|
    ensures forall k :: x <= k < x + n ==> CellsInserted(cells, x, n, attr)[k] == NullCell(attr)
  {
    forall k | x <= k < x + n ensures CellsInserted(cells, x, n, attr)[k] == NullCell(attr) {
      CellsInsertedAt(cells, x, n, attr, k);
    }
  }

  /** Printing in insert mode. */
  lemma InsertAndWrite(cells: Cells, x: nat, text: seq<nat>, width: nat, attr: int)
    requires RowOkUpTo(cells, x) && 1 <= width <= 2 && x + width <= |cells| && text != []
    ensures RowOkUpTo(Written(CellsInserted(cells, x, width, attr), x, text, width, attr), x + width)
       <==> x + width == |cells| || x > 0 || !StandsAlone(cells[0])
  {
    InsertedAreNull(cells, x, width, attr);
    if x + width == |cells| {
      InsertToEnd(cells, x, width, attr);
    } else {
      Insert(cells, x, width, attr);
    }
    WriteOver(CellsInserted(cells, x, width, attr), x, text, width, attr);
  }

  lemma InsertNothing(cells: Cells, attr: int)
    requires RowOkUpTo(cells, 0) && |cells| >= 2
    ensures CellsInserted(cells, 0, 0, attr) == cells
  {
    assert Spread(cells, 0, 0, attr) == cells;
    assert CellOk(cells, |cells| - 1);
  }

  /** Overwriting the last column in place tears a wide character exactly when it is the second half of one. */
  lemma LastColumn(cells: Cells, text: seq<nat>, attr: int)
    requires RowOk(cells) && |cells| >= 2 && text != []
    ensures var last := |cells| - 1;
            RowOk(Written(cells, last, text, 1, attr)) <==> cells[last - 1].width != 2
  {
    var last := |cells| - 1;
    var d := Written(cells, last, text, 1, attr);
    if cells[last - 1].width == 2 {
      assert !CellOk(d, last - 1);
    } else {
      forall k | 0 <= k < |d| ensures CellOk(d, k) {
        assert CellOk(cells, k);
      }
    }
  }
}
